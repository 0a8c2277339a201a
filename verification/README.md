# News feed service: model and proofs

The news feed service keeps one table of feed entries, keyed by title, on one of
three engines: Postgres, MariaDB or MSSQL. Clients send batches to create, update
or delete entries and read pages of entries with filters, a sort direction and a
limit. Each engine has its own stored procedures, which are meant to agree. GET
responses carry an entity tag made from the newest modification date, or from the
body when that date cannot be read, and are answered with 304 when the client
already holds that tag (section 13.1.2 of RFC 9110).

`dafny verify dfyconfig.toml` checks the whole project.

## How the model is built

- `Feed`, `Sql`: items, rows, statuses; SQL null as `Option`; three-valued logic and
  the change test of each engine.
- `Bulk`: what one bulk call does to the table and answers, per engine, as functions.
  `BulkLaws`, `Refinement`, `TableLaws`, `Conservation`, `Permutation`, `Parity`,
  `MariaMssqlParity` and `Visibility` prove what follows. `Sent` and `Refusals` say it over
  the items as clients send them: what is read, answered, stored and refused.
- `Procedures`, `MariaSession`: the procedures in their own form, as classes whose
  methods change the table, the temporary tables and the session variables statement
  by statement and row by row; each is proved to do what `Bulk` says. `Runs` and `Race`
  are about sequences and interleavings of such calls.
- `Ordering`, `Query`, `Extract`, `ExtractParity`: the dynamic query builder, its
  placeholders, the sixteen-way dispatch and an evaluator. `Pages` says which rows a GET
  gets, from its query string on.
- `Json`, `ConditionalGet`, `Survivors`, `CacheSafety`, `CacheLimits`: the texts that
  are hashed, the handler with its two separate reads, what calls leave of a table, and
  a state machine of writes, split requests and client caches.
- `Sanitiser`: `OmitCharacters` of MSSQL. `Payload`, `PayloadKeys`, `Limit`,
  `Forwarded`, `Handlers`: the edges of the request pipeline.
- `Examples`, `ReadExamples`: concrete inputs for what is listed below.

Automatic induction is switched off in every lemma; a proof by induction says where it
uses its hypothesis.

A collation is a function from texts to sort keys; two texts are equal under it when
their keys are. Postgres keeps titles in a `citext` column with a unique key, but its
update and delete joins, which meet a `text` item, compare exact text. MariaDB and MSSQL
compare under the collation everywhere. A date cast, a hash, a print of dates, address
parsing and white space are function parameters; the hash is taken as injective, and the
printed newest date as a text without underscore that does not start like a JSON object.
The clock is a parameter of every call.

## Where the engines and the protocol part

Each of these is proved as an exact condition, in both directions, and shown at an input
that clients can send, in the lemma named:

- Two new titles that differ only in a way the collation ignores pass the duplicate check.
  Postgres stores the first, MariaDB stores both and MSSQL rejects the whole batch
  (`CaseVariants`).
- A delete of two such titles removes one row and reports two successes on MariaDB and
  MSSQL (`TwoSuccessesOneRow`).
- Updates and deletes of a title spelled otherwise than stored miss on Postgres and hit
  elsewhere (`OtherSpelling`). A mere respelling of a value is an update on Postgres and
  none elsewhere (`Respelling`).
- MSSQL does not see a nullable column moving between NULL and a value (`NullMove`), and
  rejects a whole batch with a text wider than its parsed columns (`LongText`).
- A delete needs only a title, but MariaDB and MSSQL drop items without feed URL or date
  (`DeleteByTitle`).
- An update without feed URL passes the check, and on Postgres fails its whole batch when
  its title is stored (`UpdateWithoutUrl`).
- On Postgres a nullable filter that spells null with capitals always fails
  (`CapitalNull`); an accented one is a text there and the null word on MariaDB
  under a collation that ignores accents (`AccentedNull`).
- On MSSQL the actual URL filter is read as a null test when the image URL is the null
  word, and as a text otherwise (`ActualNull`).
- A title is stored as sent but asked for as cleaned: a GET misses it, or shows the whole
  table, unless cleaning keeps it (`DoubleSpaceLost`, `UnlistedTitleShowsAll`).
- A date tag can outlive deletes (`StaleAfterDelete`); without deletes every 304 is right.
  Two writes within one tick of the clock share a date (`OneTickTwoWrites`).

`docs/adr/0009-cross-engine-bulk-cud-parity.md` claims parity without these conditions. The
comment on `parse_status_rows` and `docs/adr/0007-conflict-write-status-change.md` speak of
rewriting legacy success messages into Skipped; the code does not, and the model follows
the code.

## Model

| member | source | states |
|---|---|---|
| `Refinement.RefinementLaw` | newsfeed/crates/newsfeed-db/migrations/postgres/20260718000000_init_postgres.sql:710-798 | On every engine and in every mode, a bulk call on items that are apart has the table and the answers (or the failure) of one call per item in order, at whatever clock readings, stamps aside |
| `Refinement.SplitLaw` | newsfeed/crates/newsfeed-db/migrations/postgres/20260718000000_init_postgres.sql:710-798 | One call on xs + ys is a call on xs and then a call on ys, failures included |
| `Refinement.ClockOnlyStamps` | newsfeed/crates/newsfeed-db/migrations/postgres/20260718000000_init_postgres.sql:724-751 | The clock and the stored stamps influence only the stamps of the result, never its other columns or the answers |
| `Permutation.PermutationLaw` | newsfeed/crates/newsfeed-db/migrations/postgres/20260718000000_init_postgres.sql:710-798 | A permuted batch leaves the same set of rows and gives every item the same answer at its new place, provided an insert repeats no new title under the collation |
| `Permutation.ReversalTells` | newsfeed/crates/newsfeed-db/migrations/postgres/20260718000000_init_postgres.sql:693-734 | On Postgres reversing a batch keeps the table exactly when no new title is repeated under the collation: the first spelling wins |
| `TableLaws.KeyedLaw` | newsfeed/crates/newsfeed-db/migrations/mariadb/20260718000000_init_mariadb.sql:392-406 | Every committed call keeps titles unique under the collation, except that a MariaDB insert, without a key, does so exactly when its new titles are pairwise different under the collation |
| `TableLaws.DistinctLaw` | newsfeed/crates/newsfeed-db/migrations/mariadb/20260718000000_init_mariadb.sql:359-448 | A batch that repeats no exact title keeps exact titles distinct on every engine and in every mode |
| `TableLaws.AnswerLaw` | newsfeed/crates/newsfeed-db/migrations/postgres/20260718000000_init_postgres.sql:729-773 | Every item gets exactly one answer, which tells what the call did to it (inserted, updated, deleted, already there, not found) |
| `Conservation.ConservationLaw` | newsfeed/crates/newsfeed-db/migrations/postgres/20260718000000_init_postgres.sql:720-798 | For every batch that the duplicate check accepts, on a keyed table of every engine, the table grows on insert and shrinks on delete by exactly the number of Success statuses and keeps its size on update; the one exception, always, is a delete in which two items name one row |
| `Conservation.MariaInsertCounts` | newsfeed/crates/newsfeed-db/migrations/mariadb/20260718000000_init_mariadb.sql:392-406 | A MariaDB insert reports exactly as many successes as it adds rows, for every batch of titled items and every table, keyed or not |
| `Conservation.DeleteTakes` | newsfeed/crates/newsfeed-db/migrations/mssql/20260718000000_init_mssql.sql:588-605 | A delete removes at most as many rows as items name one, and as many exactly when no row is named twice |
| `Conservation.ApartNamesOnce` | newsfeed/crates/newsfeed-db/migrations/postgres/20260718000000_init_postgres.sql:781-798 | On Postgres the duplicate check rules that exception out |
| `TableLaws.StampLaw` | newsfeed/crates/newsfeed-db/migrations/postgres/20260718000000_init_postgres.sql:722-751 | Every row after a call is an old row or carries the call's time |
| `TableLaws.TitleLaw` | newsfeed/crates/newsfeed-db/migrations/postgres/20260718000000_init_postgres.sql:720-779 | Insert and update keep every row position's title and lose none |
| `TableLaws.EffectLaw` | newsfeed/crates/newsfeed-db/migrations/postgres/20260718000000_init_postgres.sql:747-761 | With a clock ahead of every stamp, an insert or update either succeeds somewhere, changes the table and makes its time the maximum stamp, or changes nothing and reports only Skipped |
| `TableLaws.NewestStampMoves` | newsfeed/crates/newsfeed-db/migrations/postgres/20260718000000_init_postgres.sql:747-761 | On a clock that does not run backwards the maximum stamp moves exactly when something succeeded and the clock has ticked since the old maximum |
| `TableLaws.OneTick` | newsfeed/crates/newsfeed-db/migrations/postgres/20260718000000_init_postgres.sql:747-761 | Within one tick a successful call leaves the maximum stamp as it was: the concrete case where the date tells nothing |
| `TableLaws.RepeatLaw` | newsfeed/crates/newsfeed-db/migrations/postgres/20260718000000_init_postgres.sql:710-798 | Repeating a call at any later time changes nothing and skips every item |
| `TableLaws.MaxModifiedIsMax` | newsfeed/crates/newsfeed-db/src/postgres.rs:63-73 | The date that drives the tag is the greatest stamp of the table: held by some row and exceeded by none |
| `Visibility.SuccessIsStored` | newsfeed/crates/newsfeed-db/migrations/postgres/20260718000000_init_postgres.sql:736-755 | An item answered with Success by insert or update stands in exactly one row under the collation, every column as sent, stamped with the call's time |
| `Visibility.SkipIsSeen` | newsfeed/crates/newsfeed-db/migrations/postgres/20260718000000_init_postgres.sql:756-773 | An update that skips an item as existing leaves its row alone, and the row differs from the item in no way the engine can see |
| `Visibility.ReadYourWrites` | newsfeed/crates/newsfeed-db/migrations/postgres/20260718000000_init_postgres.sql:276-285 | After a Success, a GET for the title, through the cleaning and the extract procedure of the engine, returns exactly that row with the values sent if cleaning keeps the title under the collation; with two or more rows and a limit of two or more, only then |
| `Visibility.KeptTitleFinds` | newsfeed/crates/newsfeed-db/migrations/postgres/20260718000000_init_postgres.sql:166-288 | With a kept title and any other filters: an error where the engine refuses them, else the title's row if it passes them, else nothing |
| `Visibility.DroppedTitleShowsAll` | newsfeed/crates/newsfeed-db/migrations/mssql/20260718000000_init_mssql.sql:251-265 | A title that cleaning makes null is not asked for: min(rows, limit) rows come back |
| `Visibility.ChangedTitleMisses` | newsfeed/crates/newsfeed-db/migrations/postgres/20260718000000_init_postgres.sql:76-88 | A title that cleaning changes under the collation never returns its own row |
| `Visibility.MssqlKeepsClean` | newsfeed/crates/newsfeed-db/migrations/mssql/20260718000000_init_mssql.sql:251-265 | On MSSQL every clean title is kept, and under a collation that tells texts apart no other |
| `Visibility.MssqlDropsUnlisted` | newsfeed/crates/newsfeed-db/migrations/mssql/20260718000000_init_mssql.sql:25-132 | On MSSQL a title without any listed character brings up the unfiltered page |
| `Sent.AnswersSent` | newsfeed/crates/newsfeed-db/migrations/mssql/20260718000000_init_mssql.sql:509-527 | Over the items as sent: a call answers exactly the items that are read, in their order; Postgres reads all, the others those whose title, feed URL and date are given and not blank |
| `Sent.TitlesDecide` | newsfeed/crates/newsfeed-db/migrations/postgres/20260718000000_init_postgres.sql:720-798 | Over the items as sent: how the titles alone decide the answers: new or there on insert, there or missing on update and delete |
| `Sent.SuccessStoresSent` | newsfeed/crates/newsfeed-db/migrations/postgres/20260718000000_init_postgres.sql:736-755 | Over the items as sent, on every engine, for insert and update: an item answered Success stands in one row, with the feed URL as sent, the image and actual URL as sent without outer spaces and null when absent or blank, the date as cast (on MariaDB the text itself), stamped with the call's time |
| `Sent.BareTextStored` | newsfeed/crates/newsfeed-db/migrations/postgres/20260718000000_init_postgres.sql:716-716 | A text without outer spaces is stored as sent |
| `Sent.SkipMeansSeen` | newsfeed/crates/newsfeed-db/migrations/postgres/20260718000000_init_postgres.sql:756-773 | Over the items as sent: an update skipped as existing leaves its row, and what was sent for it differs from the row in nothing the engine sees |
| `Sent.InsertOnlyAdds` | newsfeed/crates/newsfeed-db/migrations/mariadb/20260718000000_init_mariadb.sql:392-406 | An insert keeps every old row in its place and adds only rows that some item sent asked for, column by column |
| `Sent.UpdateOnlyRewrites` | newsfeed/crates/newsfeed-db/migrations/mariadb/20260718000000_init_mariadb.sql:408-434 | An update keeps every row but those that some item sent asked for, and of them the title and the creation time |
| `Sent.DeleteOnlyTakes` | newsfeed/crates/newsfeed-db/migrations/mssql/20260718000000_init_mssql.sql:588-605 | A delete takes out exactly the rows whose title an item that is read names |
| `Refusals.MariaNeverFails` | newsfeed/crates/newsfeed-db/migrations/mariadb/20260718000000_init_mariadb.sql:366-390 | No call fails on MariaDB, whatever is sent |
| `Refusals.PostgresInsertFails` | newsfeed/crates/newsfeed-db/migrations/postgres/20260718000000_init_postgres.sql:710-728 | A Postgres insert fails exactly when some item has a date that cannot be cast or lacks title, feed URL or date - also when its title is stored already |
| `Refusals.PostgresUpdateFails` | newsfeed/crates/newsfeed-db/migrations/postgres/20260718000000_init_postgres.sql:736-755 | A Postgres update of titled items that are apart fails exactly when some date cannot be cast or some item names a stored row and lacks feed URL or date |
| `Refusals.PostgresDeletes` | newsfeed/crates/newsfeed-db/migrations/postgres/20260718000000_init_postgres.sql:781-798 | A Postgres delete never fails: it casts nothing |
| `Refusals.MssqlInsertFails` | newsfeed/crates/newsfeed-db/migrations/mssql/20260718000000_init_mssql.sql:509-549 | An MSSQL insert fails exactly when a kept text is wider than its parsed column, a new title has a date that cannot be cast, or two items carry one new title |
| `Refusals.MssqlUpdateFails` | newsfeed/crates/newsfeed-db/migrations/mssql/20260718000000_init_mssql.sql:550-587 | An MSSQL update of titled items that are apart fails exactly when a kept text is too wide or an item without castable date changes its row |
| `Refusals.MssqlDeleteFails` | newsfeed/crates/newsfeed-db/migrations/mssql/20260718000000_init_mssql.sql:588-605 | An MSSQL delete fails exactly when a kept text is too wide |
| `Refusals.ModesRead` | newsfeed/crates/newsfeed-db/migrations/mariadb/20260718000000_init_mariadb.sql:359-455 | Which mode texts select which branch on each engine, and what every other text does |
| `Sql.MssqlSeesOnlyValueChanges` | newsfeed/crates/newsfeed-db/migrations/mssql/20260718000000_init_mssql.sql:563-568 | In three-valued logic the MSSQL change test is TRUE exactly when some column holds two different values; a move between NULL and a value is not seen |
| `Sql.OnlyMariaSees` | newsfeed/crates/newsfeed-db/migrations/mariadb/20260718000000_init_mariadb.sql:408-434 | MariaDB sees a change that MSSQL does not exactly when no column holds two different values and a nullable one moves between NULL and a value |
| `Parity.InsertParityMaria` | newsfeed/crates/newsfeed-db/migrations/mariadb/20260718000000_init_mariadb.sql:392-406 | For complete items on a keyed table Postgres and MariaDB inserts agree, rows and statuses, exactly when no new title is repeated under the collation |
| `Parity.InsertParityMssql` | newsfeed/crates/newsfeed-db/migrations/mssql/20260718000000_init_mssql.sql:531-549 | Postgres and MSSQL inserts agree exactly when moreover every text fits MSSQL's parsed columns |
| `Parity.UpdateParityMaria` | newsfeed/crates/newsfeed-db/migrations/mariadb/20260718000000_init_mariadb.sql:408-434 | For titled and dated items Postgres and MariaDB updates agree exactly when every item has a feed URL, titles are spelled as stored and no item only respells its row under the collation |
| `Parity.UpdateParityMssql` | newsfeed/crates/newsfeed-db/migrations/mssql/20260718000000_init_mssql.sql:550-587 | Postgres and MSSQL updates agree exactly when every item has a feed URL, titles are spelled as stored, every text fits and no item changes its row unseen by MSSQL, or else when both fail: Postgres on a missing feed URL of a stored row, MSSQL on a width |
| `Parity.DeleteParity` | newsfeed/crates/newsfeed-db/migrations/mssql/20260718000000_init_mssql.sql:588-605 | A MariaDB or MSSQL delete agrees with Postgres exactly when no item lacks a feed URL or date, titles are spelled as stored and, for MSSQL, every text fits |
| `MariaMssqlParity.InsertParityMariaMssql` | newsfeed/crates/newsfeed-db/migrations/mssql/20260718000000_init_mssql.sql:531-549 | MariaDB and MSSQL inserts agree exactly when the texts kept fit and no new title is repeated under the collation |
| `MariaMssqlParity.UpdateParityMariaMssql` | newsfeed/crates/newsfeed-db/migrations/mssql/20260718000000_init_mssql.sql:550-587 | For items that are apart MariaDB and MSSQL updates agree exactly when the texts kept fit and both change tests agree on every item and its row |
| `MariaMssqlParity.DeleteParityMariaMssql` | newsfeed/crates/newsfeed-db/migrations/mssql/20260718000000_init_mssql.sql:588-605 | MariaDB and MSSQL deletes agree exactly when the texts kept fit |
| `Procedures.ReturningDatabase.InsertFresh` | newsfeed/crates/newsfeed-db/migrations/postgres/20260718000000_init_postgres.sql:720-734 | The row-by-row insert fails, leaving the table alone, exactly when the statement's specification fails, and otherwise appends exactly the admitted items and gives back their titles |
| `Procedures.ReturningDatabase.UpdateChanged` | newsfeed/crates/newsfeed-db/migrations/postgres/20260718000000_init_postgres.sql:747-761 | The row-by-row update rewrites exactly the rows that an item names and changes, or fails and leaves the table alone |
| `Procedures.ReturningDatabase.DeleteNamed` | newsfeed/crates/newsfeed-db/migrations/postgres/20260718000000_init_postgres.sql:786-791 | The row-by-row delete removes exactly the rows that an item names and gives back their titles |
| `Procedures.ReturningDatabase.Report` | newsfeed/crates/newsfeed-db/migrations/postgres/20260718000000_init_postgres.sql:729-734 | The left join of the items with the titles given back yields the specified statuses |
| `Procedures.ReturningDatabase.CudBulkJson` | newsfeed/crates/newsfeed-db/migrations/postgres/20260718000000_init_postgres.sql:700-803 | The whole procedure of Postgres and MSSQL leaves the table and statuses of the call, keeps the primary key, and fails without effect; unknown modes answer with no status |
| `Procedures.ReportedIsReturned` | newsfeed/crates/newsfeed-db/migrations/mssql/20260718000000_init_mssql.sql:540-548 | Joining an item with the titles given back tells whether a row was inserted, updated or deleted for it |
| `Procedures.GaveTouched` | newsfeed/crates/newsfeed-db/migrations/mssql/20260718000000_init_mssql.sql:553-582 | An item joins a title given back exactly when it names a row that the statement touched |
| `Procedures.InsertStops` | newsfeed/crates/newsfeed-db/migrations/mssql/20260718000000_init_mssql.sql:147-150 | A row that violates NOT NULL or the key fails the whole insert |
| `MariaSession.Session.CudBulkJson` | newsfeed/crates/newsfeed-db/migrations/mariadb/20260718000000_init_mariadb.sql:359-455 | Whatever temporary tables and session variables held before, predict-then-write leaves the table and the statuses of the call and never fails; an unknown mode is one Error status |
| `MariaSession.Session.Parse` | newsfeed/crates/newsfeed-db/migrations/mariadb/20260718000000_init_mariadb.sql:366-390 | The parsed input is exactly the items with a title, a feed URL and a date |
| `MariaSession.Session.Predict` | newsfeed/crates/newsfeed-db/migrations/mariadb/20260718000000_init_mariadb.sql:393-400 | One status per joined row, or one for an item that joins none, seen against the table before the write |
| `MariaSession.Session.InsertAbsent` | newsfeed/crates/newsfeed-db/migrations/mariadb/20260718000000_init_mariadb.sql:402-406 | Adds exactly the items whose title the table, as the statement found it, does not hold |
| `MariaSession.Session.UpdateChanged` | newsfeed/crates/newsfeed-db/migrations/mariadb/20260718000000_init_mariadb.sql:426-434 | Rewrites exactly the joined rows that differ null-safely from their item |
| `MariaSession.Session.DeleteNamed` | newsfeed/crates/newsfeed-db/migrations/mariadb/20260718000000_init_mariadb.sql:445-448 | Removes exactly the joined rows |
| `MariaSession.NeverFails` | newsfeed/crates/newsfeed-db/migrations/mariadb/20260718000000_init_mariadb.sql:388-390 | The payload filter makes every write of a MariaDB call storable |
| `Runs.RunKeepsTitles` | newsfeed/crates/newsfeed-db/migrations/mariadb/20260718000000_init_mariadb.sql:359-448 | Over every run of calls with any mode texts and batches that repeat no title, titles stay distinct, on MariaDB without a key |
| `Runs.RunIsHonest` | newsfeed/crates/newsfeed-db/migrations/mariadb/20260718000000_init_mariadb.sql:392-448 | Over every run of batches of which no two items join as one title the table stays keyed, and each call's statuses, also those predicted before the write, tell item by item what it does and account for the row count |
| `Runs.PostgresRunIsHonest` | newsfeed/crates/newsfeed-db/migrations/postgres/20260718000000_init_postgres.sql:700-803 | On Postgres this holds for every run of batches that the handler accepts |
| `Race.ExactlyOneWins` | newsfeed/crates/newsfeed-db/migrations/postgres/20260718000000_init_postgres.sql:720-734 | In every interleaving of row-level inserts of any number of callers, a new title is inserted by exactly one attempt and a stored one by none |
| `Race.StatusTellsWin` | newsfeed/crates/newsfeed-db/migrations/postgres/20260718000000_init_postgres.sql:729-734 | A caller whose batch repeats no title reads Success exactly for the rows its own statement inserted |
| `Race.FinalTitles` | newsfeed/crates/newsfeed-db/migrations/postgres/20260718000000_init_postgres.sql:720-734 | When all callers are done the titles are the old ones and all requested ones, whatever the interleaving |
| `Race.SameSuccesses` | newsfeed/crates/newsfeed-db/migrations/postgres/20260718000000_init_postgres.sql:720-734 | All complete interleavings report the same total number of successes |
| `Race.AloneIsOneStatement` | newsfeed/crates/newsfeed-db/migrations/postgres/20260718000000_init_postgres.sql:720-728 | A caller alone does what its whole insert statement does |
| `Race.PredictionsComeTrue` | newsfeed/crates/newsfeed-db/migrations/mariadb/20260718000000_init_mariadb.sql:392-448 | When others write between MariaDB's prediction and its write, the statuses are right exactly when every item sees both tables alike |
| `Query.WantedReads` | newsfeed/crates/newsfeed-db/migrations/postgres/20260718000000_init_postgres.sql:195-270 | Each filter restricts its own column, and the null word asks for missing image or actual URLs only |
| `Query.QueryMeansPage` | newsfeed/crates/newsfeed-db/migrations/postgres/20260718000000_init_postgres.sql:190-288 | The numbered WHERE text, order and limit, run with the needed arguments, mean filter, sort, take |
| `Extract.PostgresDispatchAligned` | newsfeed/crates/newsfeed-db/migrations/postgres/20260718000000_init_postgres.sql:290-623 | All sixteen branches with their sub-branches bind the given non-null filters in column order, then the limit |
| `Extract.PostgresMeans` | newsfeed/crates/newsfeed-db/migrations/postgres/20260718000000_init_postgres.sql:166-623 | Postgres answers every filter combination with filter, sort, take, and fails exactly when a nullable filter spells the word null with capitals |
| `Extract.ShoutingFails` | newsfeed/crates/newsfeed-db/migrations/postgres/20260718000000_init_postgres.sql:203-222 | A capitalised null literal leaves one argument too many and a text in the limit slot |
| `Extract.LowerReads` | newsfeed/crates/newsfeed-db/migrations/postgres/20260718000000_init_postgres.sql:203-222 | Lower case turns capitals into the small letters in their place and changes nothing else |
| `Extract.BuildPostgres` | newsfeed/crates/newsfeed-db/migrations/postgres/20260718000000_init_postgres.sql:190-275 | The builder's counter numbers every placeholder after those before it |
| `Extract.ExtractPostgres` | newsfeed/crates/newsfeed-db/migrations/postgres/20260718000000_init_postgres.sql:166-623 | The whole procedure, with defaults for limit and sort, returns the page or the error |
| `Extract.MariaDispatchAligned` | newsfeed/crates/newsfeed-db/migrations/mariadb/20260718000000_init_mariadb.sql:257-354 | The dispatch on session variables binds one argument for each question mark, in order |
| `Extract.MariaAnswersAll` | newsfeed/crates/newsfeed-db/migrations/mariadb/20260718000000_init_mariadb.sql:137-354 | Under every collation that ignores letter case or tells all texts apart, arguments and question marks are aligned for every input and MariaDB answers with filter, sort, take |
| `Extract.MariaMeans` | newsfeed/crates/newsfeed-db/migrations/mariadb/20260718000000_init_mariadb.sql:137-354 | Under any collation at all: filter, sort, take, or an error exactly when a text equal to null under it is no longer so in lower case |
| `MariaSession.Session.ExtractNewsFeed` | newsfeed/crates/newsfeed-db/migrations/mariadb/20260718000000_init_mariadb.sql:60-354 | The builder over session variables returns the page, or fails in the same case, whatever earlier calls left in the session |
| `MariaSession.Session.Build` | newsfeed/crates/newsfeed-db/migrations/mariadb/20260718000000_init_mariadb.sql:167-244 | The built text, its question marks and the session variables are those of the filters |
| `Extract.MssqlMeans` | newsfeed/crates/newsfeed-db/migrations/mssql/20260718000000_init_mssql.sql:352-495 | MSSQL answers with filter, sort, take on every table exactly when the actual URL filter, whose branch tests the image URL, is not misread |
| `ExtractParity.ExtractMeans` | newsfeed/crates/newsfeed-db/migrations/postgres/20260718000000_init_postgres.sql:166-623 | Every engine's extract procedure is filter, sort, take under its own reading of the null words and the sort text |
| `ExtractParity.ExtractParityLaw` | newsfeed/crates/newsfeed-db/migrations/mariadb/20260718000000_init_mariadb.sql:137-354 | For any two engines, with nulls first or last and rows in any physical order: they return the same page from every table they share exactly when both refuse the request, or neither does and they read each given null word alike and sort one way, where a title filter or a one-valued collation makes the direction irrelevant |
| `ExtractParity.SentSortsAlike` | newsfeed/crates/newsfeed-models/src/feed.rs:58-63 | The sort texts that the server sends mean one direction on every engine whose collation tells asc from desc |
| `Ordering.StrictOrder` | newsfeed/crates/newsfeed-db/migrations/postgres/20260718000000_init_postgres.sql:276-285 | The five-key order is irreflexive, asymmetric and transitive on all rows |
| `Ordering.TotalOrder` | newsfeed/crates/newsfeed-db/migrations/postgres/20260718000000_init_postgres.sql:276-285 | It is total where titles differ under the collation |
| `Ordering.SortReads` | newsfeed/crates/newsfeed-db/migrations/postgres/20260718000000_init_postgres.sql:276-285 | On a keyed table the order is by date and then title; the URL keys never decide |
| `Ordering.SortOrderFree` | newsfeed/crates/newsfeed-db/migrations/postgres/20260718000000_init_postgres.sql:276-285 | On a keyed table the sorted result depends on the set of rows only |
| `Ordering.DescendingIsReversed` | newsfeed/crates/newsfeed-db/migrations/postgres/20260718000000_init_postgres.sql:276-285 | The full descending result is the ascending one reversed |
| `Ordering.TakePrefix` | newsfeed/crates/newsfeed-db/migrations/postgres/20260718000000_init_postgres.sql:284-285 | The result for a smaller limit is a prefix of that for a larger one |
| `Ordering.TakeIsFirst` | newsfeed/crates/newsfeed-db/migrations/postgres/20260718000000_init_postgres.sql:276-285 | Sorting a keyed table and cutting at the limit gives its first rows by date and then title: in order, min(limit, rows) of them, everything left out comes later |
| `Ordering.FirstRowsUnique` | newsfeed/crates/newsfeed-db/migrations/postgres/20260718000000_init_postgres.sql:276-285 | There is only one page of that kind |
| `Ordering.PrecedesLexically` | newsfeed/crates/newsfeed-db/migrations/postgres/20260718000000_init_postgres.sql:276-285 | The five-key order is the lexicographic one of the column ranks, nulls before or after all texts |
| `Ordering.SortInOrder` | newsfeed/crates/newsfeed-db/migrations/postgres/20260718000000_init_postgres.sql:276-285 | Sorting any table, also one with equal rows, keeps every row as often as it is there and puts them in order |
| `Query.PageIsFirst` | newsfeed/crates/newsfeed-db/migrations/postgres/20260718000000_init_postgres.sql:166-288 | On a keyed table the page holds the first rows of those that pass the filters |
| `Pages.ExtractPage` | newsfeed/crates/newsfeed-db/migrations/postgres/20260718000000_init_postgres.sql:166-623 | For the sort texts that the server sends, each engine's procedure fails exactly on its spellings of null, and else returns the first rows of those that pass, each filter on its own column, newest first exactly for desc |
| `Pages.FetchPage` | newsfeed/crates/newsfeed-models/src/feed.rs:18-65 | What a GET with given parameters reads from a keyed table: newest first exactly when sort is desc, at most the given limit, only and first the rows that pass the four cleaned filters on their own columns |
| `Pages.FetchAnyTable` | newsfeed/crates/newsfeed-db/migrations/mariadb/20260718000000_init_mariadb.sql:246-252 | The same on any table, without key and with equal rows: the front, in the order of all five columns, of the rows that pass, each as often as the table holds it |
| `Pages.QueryPage` | newsfeed/crates/newsfeed-models/src/feed.rs:43-65 | The same from the query string: each named parameter reaches its own column, the sort word counts in any letter case, the limit as it is read |
| `ConditionalGet.Handler` | newsfeed/crates/newsfeed-server/src/handlers/get.rs:48-125 | Which tag a response carries, when it is 304, when it is an error, given what the two separate reads return |
| `ConditionalGet.InputsNeverCoincide` | newsfeed/crates/newsfeed-server/src/handlers/get.rs:57-100 | The text hashed into a date tag is never the text of a body |
| `ConditionalGet.DateInputUnique` | newsfeed/crates/newsfeed-server/src/handlers/get.rs:57-61 | Date and parameters can be read back from the text hashed into a date tag |
| `Json.ParamsUnique` | newsfeed/crates/newsfeed-server/src/handlers/get.rs:58-59 | Distinct extract parameters serialise to distinct JSON texts |
| `Json.ParamsRead` | newsfeed/crates/newsfeed-models/src/feed.rs:30-39 | The parameters as JSON text, key by key |
| `Json.RowReads` | newsfeed/crates/newsfeed-server/src/handlers/get.rs:75-100 | A row of the body as JSON text, key by key |
| `Json.BodyReads` | newsfeed/crates/newsfeed-models/src/response.rs:26-46 | The body as JSON text: status, code, message, count and rows |
| `Json.BodyUnique` | newsfeed/crates/newsfeed-server/src/handlers/get.rs:75-100 | Two equal bodies show equal rows, column by column |
| `Json.DecimalReads` | newsfeed/crates/newsfeed-server/src/handlers/get.rs:58-59 | Numbers are printed in decimal digits |
| `Json.QuoteReads` | newsfeed/crates/newsfeed-server/src/handlers/get.rs:58-59 | A text stands between quotes, its characters escaped one by one |
| `Json.EscapesRead` | newsfeed/crates/newsfeed-server/src/handlers/get.rs:58-59 | Which characters of a text are escaped, and how |
| `ConditionalGet.DateTagReads` | newsfeed/crates/newsfeed-server/src/handlers/get.rs:57-61 | A date tag is the hash of the printed date, an underscore and the parameters |
| `ConditionalGet.SiteReads` | newsfeed/crates/newsfeed-server/src/handlers/get.rs:73-101 | A body tag is the hash of the body, which is that of the rows read |
| `ConditionalGet.StepsAreHandler` | newsfeed/crates/newsfeed-server/src/handlers/get.rs:48-125 | The two steps of a request in the state machine are the handler with the date of the first state and the rows of the second |
| `ConditionalGet.FinishRecords` | newsfeed/crates/newsfeed-server/src/handlers/get.rs:73-125 | A finished request waits no longer, and a full answer is what its client then holds |
| `ConditionalGet.WriteRecords` | newsfeed/crates/newsfeed-db/migrations/postgres/20260718000000_init_postgres.sql:700-803 | A call appends one version of the table, that of the engine's procedure, or the old one when it fails |
| `ConditionalGet.FetchOrderFree` | newsfeed/crates/newsfeed-db/migrations/postgres/20260718000000_init_postgres.sql:276-285 | What a keyed table's page is depends on the set of rows, not on their physical order, on every engine |
| `ConditionalGet.DeploymentsAreSound` | newsfeed/crates/newsfeed-server/src/handlers/get.rs:56-101 | With an injective hash, on every engine: date tags identify date and parameters, body tags the body, and no date tag is a body tag |
| `Survivors.CallOnlyTakes` | newsfeed/crates/newsfeed-db/migrations/postgres/20260718000000_init_postgres.sql:720-798 | Whatever a call does, on every engine, for every batch and every table, keyed or not: of the rows stamped before it only some are taken out, in their order |
| `CacheSafety.StepKeepsInv` | newsfeed/crates/newsfeed-server/src/handlers/get.rs:48-125 | Writes, first halves and second halves of requests keep the protocol invariant |
| `CacheSafety.RunKeepsInv` | newsfeed/crates/newsfeed-server/src/handlers/get.rs:48-125 | The invariant holds in every reachable state |
| `CacheSafety.SentIs304` | newsfeed/crates/newsfeed-server/src/handlers/get.rs:62-111 | Every 304 that any step sends is one that the safety results speak of |
| `CacheSafety.EveryNotModified` | newsfeed/crates/newsfeed-server/src/handlers/get.rs:56-111 | In every run on every table, keyed or not, deletes and writes between the two reads included, after a 304 the client's body is current or rows have been taken out of the table, and nothing else has happened to it, since the client's version |
| `CacheSafety.NotModifiedIsTrue` | newsfeed/crates/newsfeed-server/src/handlers/get.rs:56-111 | In every run without deletes, on every engine, table and batch, a 304 leaves the client with exactly the body that the current table gives for its parameters |
| `CacheLimits.WholeTableExactly` | newsfeed/crates/newsfeed-server/src/handlers/get.rs:56-69 | For a request that shows the whole table a matching date tag is right exactly when the row count is unchanged |
| `CacheLimits.DeleteUnnoticed` | newsfeed/crates/newsfeed-server/src/handlers/get.rs:56-69 | A delete escapes a fresh date tag exactly when a row with the newest stamp survives it |
| `CacheLimits.UnfilteredCount` | newsfeed/crates/newsfeed-db/migrations/postgres/20260718000000_init_postgres.sql:276-288 | Without filters every engine returns min(rows, limit) rows |
| `Sanitiser.OmitCharacters` | newsfeed/crates/newsfeed-db/migrations/mssql/20260718000000_init_mssql.sql:25-132 | The loops compute: mask by the whitelist, collapse spaces, trim; blank or missing inputs give null |
| `Sanitiser.JoinIsMask` | newsfeed/crates/newsfeed-db/migrations/mssql/20260718000000_init_mssql.sql:91-112 | Because the whitelist rows are grouped, the join keeps one character per input character |
| `Sanitiser.CollapseSpaces` | newsfeed/crates/newsfeed-db/migrations/mssql/20260718000000_init_mssql.sql:114-119 | The double-space loop terminates, equals the one-pass collapse, leaves no double space and takes ceil(log2) passes of the longest run |
| `Sanitiser.HalveHalvesRuns` | newsfeed/crates/newsfeed-db/migrations/mssql/20260718000000_init_mssql.sql:118-118 | One pass turns the longest run n into ceil(n/2) |
| `Sanitiser.PassesSuffice` | newsfeed/crates/newsfeed-db/migrations/mssql/20260718000000_init_mssql.sql:114-119 | After k passes no double space is left exactly when the longest run had at most 2^k spaces |
| `Sanitiser.SanitisedIsClean` | newsfeed/crates/newsfeed-db/migrations/mssql/20260718000000_init_mssql.sql:251-265 | The output is listed characters and single inner spaces, trimmed and within the length |
| `Sanitiser.CleanIsFixed` | newsfeed/crates/newsfeed-db/migrations/mssql/20260718000000_init_mssql.sql:251-265 | The clean texts are exactly the fixed points |
| `Sanitiser.SanitisedIdempotent` | newsfeed/crates/newsfeed-db/migrations/mssql/20260718000000_init_mssql.sql:251-265 | Cleaning twice is cleaning once |
| `Sanitiser.SanitisedNull` | newsfeed/crates/newsfeed-db/migrations/mssql/20260718000000_init_mssql.sql:251-265 | A parameter becomes null exactly when it holds no listed character but spaces |
| `Sanitiser.WhitelistReads` | newsfeed/crates/newsfeed-db/migrations/mssql/20260718000000_init_mssql.sql:91-106 | The listed characters are the first of every element between commas, and the comma itself for an empty element |
| `Sanitiser.CollapseReads` | newsfeed/crates/newsfeed-db/migrations/mssql/20260718000000_init_mssql.sql:114-119 | Texts that do not meet in two spaces collapse each for itself; a run of spaces becomes one space and any other character stays |
| `Sanitiser.SanitisedCuts` | newsfeed/crates/newsfeed-db/migrations/mssql/20260718000000_init_mssql.sql:251-265 | A clean text that is too long keeps its beginning, without a space at its end |
| `Sanitiser.SanitisedOfOmitted` | newsfeed/crates/newsfeed-db/migrations/mssql/20260718000000_init_mssql.sql:251-265 | Any text is cleaned as what omitting characters leaves of it |
| `Handlers.CheckDuplicates` | newsfeed/crates/newsfeed-server/src/handlers/cud.rs:126-141 | The loop reports the repeated titles in order |
| `Handlers.RepeatsCount` | newsfeed/crates/newsfeed-server/src/handlers/cud.rs:126-141 | A title is reported once for each occurrence after its first |
| `Handlers.NoRepeats` | newsfeed/crates/newsfeed-server/src/handlers/cud.rs:135-140 | Nothing is reported exactly when no two items share a title; items without title are ignored |
| `Handlers.CompleteStorable` | newsfeed/crates/newsfeed-server/src/validation.rs:71-90 | The insert check passes exactly the batches whose items an insert can store |
| `Handlers.UpdateWithoutFeedUrl` | newsfeed/crates/newsfeed-server/src/validation.rs:100-112 | The update check lets items without feed URL pass; on Postgres the batch then fails exactly when such an item names a stored row |
| `Handlers.ParseStatusRows` | newsfeed/crates/newsfeed-db/src/shared.rs:35-54 | All statuses of all rows in order, or an error exactly when some column is null, no JSON, or holds a value that is no status; no status is rewritten |
| `Handlers.HandleCudLogic` | newsfeed/crates/newsfeed-server/src/handlers/cud.rs:143-181 | Stable partition, Count of the kept ones, partial exactly with both kinds, and 400, 201 or 200 by what the statuses hold |
| `Handlers.PartitionComplete` | newsfeed/crates/newsfeed-server/src/handlers/cud.rs:147-159 | Kept and failed statuses together are all of them |
| `Handlers.CheckRequest` | newsfeed/crates/newsfeed-server/src/handlers/cud.rs:81-110 | The request goes on exactly when its headers are right, no two items share a title and every item has the fields that are mandatory for the mode; bad headers are reported first, then shared titles, even when a field is missing too, then the first missing field of the first incomplete item |
| `Handlers.GateStops` | newsfeed/crates/newsfeed-server/src/validation.rs:71-117 | The same of the specification: mandatory are title, feed URL and date on insert, title and date on update, title on delete |
| `Handlers.RepeatsInOrder` | newsfeed/crates/newsfeed-server/src/handlers/cud.rs:126-141 | The titles reported are those of the items that repeat an earlier one, in batch order |
| `Handlers.ProcessCud` | newsfeed/crates/newsfeed-server/src/handlers/cud.rs:75-124 | On Postgres and MSSQL: wrong headers, shared titles and missing fields leave the table alone and are answered as such, without a call; every other request makes the table and response of the call, or an internal error and the old table when the call fails |
| `Handlers.ProcessCudMaria` | newsfeed/crates/newsfeed-server/src/handlers/cud.rs:75-124 | The same on a MariaDB connection |
| `Handlers.CodesTell` | newsfeed/crates/newsfeed-server/src/handlers/cud.rs:81-122 | 415 and 400 for headers, 422 for shared titles or missing fields, 500 exactly when the call fails, else the code of the response |
| `Handlers.ResponseTells` | newsfeed/crates/newsfeed-server/src/handlers/cud.rs:143-181 | Every outcome has its row of the response, in order, with its status and its own words |
| `Handlers.PartitionReads` | newsfeed/crates/newsfeed-server/src/handlers/cud.rs:147-159 | Kept and failed statuses are taken over one by one, unchanged and in order |
| `Handlers.SuccessMeansGrown` | newsfeed/crates/newsfeed-server/src/handlers/cud.rs:171-178 | On every engine an insert reports a Success exactly when the table grew |
| `Handlers.CreatedMeansGrown` | newsfeed/crates/newsfeed-server/src/handlers/cud.rs:171-178 | A request whose call succeeds is answered 201 exactly when it is a POST and the table grew |
| `Handlers.HandlersCallExec` | newsfeed/crates/newsfeed-constants/src/db.rs:41-51 | The mode text sent selects the intended branch of every procedure whose collation tells the texts apart |
| `Payload.RoundTrip` | newsfeed/crates/newsfeed-models/src/feed.rs:105-156 | Written in the wrapper form and read again a list comes back exactly when it has 1 to 1000 items whose texts are trimmed, non-empty, short enough, with scheme or valid date |
| `Payload.Accepted` | newsfeed/crates/newsfeed-models/src/feed.rs:127-156 | Every accepted payload of any form has 1 to 1000 items with such texts |
| `Payload.DecodeIdempotent` | newsfeed/crates/newsfeed-models/src/feed.rs:127-156 | Normalising a payload twice is normalising it once |
| `Payload.BatchIsWrapper` | newsfeed/crates/newsfeed-models/src/feed.rs:145-153 | An array of objects means the same bare and wrapped |
| `Payload.SingleIsBatch` | newsfeed/crates/newsfeed-models/src/feed.rs:145-155 | An object means the same alone and in an array, exactly when it is no readable wrapper |
| `Payload.FieldFixed` | newsfeed/crates/newsfeed-models/src/feed.rs:70-103 | The texts that reading a field keeps are exactly the settled ones |
| `PayloadKeys.ObjectDecodes` | newsfeed/crates/newsfeed-models/src/feed.rs:70-118 | An object decodes exactly when its keys are among title, image_url, feed_url, actual_url and publish_date, none twice, and each text given is good: trimmed not empty, at most 255, 2048 or 50 bytes, a URL starting with http:// or https://, a date valid; in any order of its members it is then the one item that carries each trimmed text in its own field |
| `PayloadKeys.BatchDecodes` | newsfeed/crates/newsfeed-models/src/feed.rs:127-156 | An array of objects decodes exactly when it has 1 to 1000 of them and each decodes, in order |
| `PayloadKeys.WrapperDecodes` | newsfeed/crates/newsfeed-models/src/feed.rs:127-153 | The same under the one key items |
| `PayloadKeys.NestedDecodes` | newsfeed/crates/newsfeed-models/src/feed.rs:127-153 | The wrapper may also be written by position, as an array of one array |
| `PayloadKeys.PositionsDecode` | newsfeed/crates/newsfeed-models/src/feed.rs:105-118 | An item written by position, its one to five values in the order of declaration, is the object with those keys |
| `PayloadKeys.SixPositions` | newsfeed/crates/newsfeed-models/src/feed.rs:105-118 | More than five positions are no item |
| `PayloadKeys.BytesAdd` | newsfeed/crates/newsfeed-models/src/feed.rs:70-79 | Length is counted in bytes, character by character |
| `Limit.LimitSurvives` | newsfeed/crates/newsfeed-models/src/feed.rs:45-49 | For every query string each engine's filter, cast and range test leave the printed limit as the server computed it: the SQL default never applies |
| `Limit.FromMapReads` | newsfeed/crates/newsfeed-models/src/feed.rs:45-49 | A missing limit is 25; a printed number, with or without a plus sign, is clamped into 1 to 100, and one beyond 32 bits becomes 25 |
| `Limit.ParseFails` | newsfeed/crates/newsfeed-models/src/feed.rs:45-49 | Exactly the texts that are digits after at most one plus sign are numbers, up to 32 bits; all others become 25 |
| `Limit.ParsePrinted` | newsfeed/crates/newsfeed-models/src/feed.rs:45-49 | A printed number is read back exactly when it fits 32 bits |
| `Limit.FromMapIdempotent` | newsfeed/crates/newsfeed-models/src/feed.rs:45-49 | Normalising the limit is idempotent through its print |
| `Limit.SqlLimitReads` | newsfeed/crates/newsfeed-db/migrations/mssql/20260718000000_init_mssql.sql:319-359 | On every engine a numeric limit text from 1 to 100 is used as it is; zero, larger and negative ones are 25 |
| `Limit.FiltersPart` | newsfeed/crates/newsfeed-db/migrations/postgres/20260718000000_init_postgres.sql:76-88 | Where the limit's filters part, at two inputs: Postgres, without the global flag, replaces one character only, where MariaDB replaces all |
| `Forwarded.Scan` | newsfeed/crates/newsfeed-server/src/middleware/ip_extractor.rs:47-61 | The reversed scan returns the rightmost untrusted address, or else the leftmost address |
| `Forwarded.Extract` | newsfeed/crates/newsfeed-server/src/middleware/ip_extractor.rs:26-74 | Without a trusted peer the peer, whatever the headers; behind one the last untrusted forwarded address, which is untrusted, else the first forwarded address, and only when none parses the real-ip header or the peer |
| `Forwarded.RealIpIsLast` | newsfeed/crates/newsfeed-server/src/middleware/ip_extractor.rs:66-71 | The real-ip header has a say exactly when the peer is trusted and no forwarded element is an address |
| `Forwarded.PeerDecides` | newsfeed/crates/newsfeed-server/src/middleware/ip_extractor.rs:26-45 | Without trust in proxies, or with a peer in none of the trusted networks, the peer it is |
| `Forwarded.HeaderDecides` | newsfeed/crates/newsfeed-server/src/middleware/ip_extractor.rs:47-61 | Spelled out over networks, trim and parse: an element outside all trusted networks with no such element after it decides, or else the first element that is an address |
| `Forwarded.RealIpDecides` | newsfeed/crates/newsfeed-server/src/middleware/ip_extractor.rs:63-74 | With no address in the list, the real-ip header or the peer |
| `Forwarded.Rightmost` | newsfeed/crates/newsfeed-server/src/middleware/ip_extractor.rs:47-61 | What rightmost means: an untrusted address with no untrusted one after it |
| `Forwarded.Leftmost` | newsfeed/crates/newsfeed-server/src/middleware/ip_extractor.rs:47-61 | What leftmost means: an address with no parseable one before it |
| `Forwarded.PrefixIsPowerless` | newsfeed/crates/newsfeed-server/src/middleware/ip_extractor.rs:47-61 | For a trusted peer, no text put before the header changes the result exactly when the header already holds an untrusted address |
| `Examples.InputsAccepted` | newsfeed/crates/newsfeed-models/src/feed.rs:70-118 | The payload reader accepts every item of the examples as it is |
| `Examples.CaseVariants` | newsfeed/crates/newsfeed-db/migrations/postgres/20260718000000_init_postgres.sql:693-734 | "A" and "a" under one key: Postgres stores the first, MariaDB both, MSSQL rejects the batch |
| `Examples.TwoSuccessesOneRow` | newsfeed/crates/newsfeed-db/migrations/mariadb/20260718000000_init_mariadb.sql:436-448 | Deleting "A" and "a" removes one row and reports two successes on MariaDB and MSSQL |
| `Examples.OtherSpelling` | newsfeed/crates/newsfeed-db/migrations/postgres/20260718000000_init_postgres.sql:736-798 | "a" sent for a stored "A" is not found by Postgres and found by the others |
| `Examples.Respelling` | newsfeed/crates/newsfeed-db/migrations/mariadb/20260718000000_init_mariadb.sql:408-434 | A feed URL sent with a capital is an update on Postgres and none elsewhere |
| `Examples.NullMove` | newsfeed/crates/newsfeed-db/migrations/mssql/20260718000000_init_mssql.sql:563-568 | An image URL sent for a row without one is skipped by MSSQL and stored by the others |
| `Examples.LongText` | newsfeed/crates/newsfeed-db/migrations/mssql/20260718000000_init_mssql.sql:509-517 | A feed URL of 769 characters fails its batch on MSSQL and is stored by the others |
| `Examples.DeleteByTitle` | newsfeed/crates/newsfeed-db/migrations/mariadb/20260718000000_init_mariadb.sql:388-390 | A delete by title alone works on Postgres and is dropped unanswered elsewhere |
| `Examples.UpdateWithoutUrl` | newsfeed/crates/newsfeed-server/src/validation.rs:100-112 | An update without feed URL fails its batch on Postgres; the others drop it and apply the rest |
| `ReadExamples.CapitalNull` | newsfeed/crates/newsfeed-db/migrations/postgres/20260718000000_init_postgres.sql:203-222 | An image filter NULL fails on every Postgres table and finds the rows without image on MariaDB |
| `ReadExamples.AccentedNull` | newsfeed/crates/newsfeed-db/migrations/mariadb/20260718000000_init_mariadb.sql:174-189 | An accented null is a text on Postgres and the null word on MariaDB under an accent-blind collation |
| `ReadExamples.ActualNull` | newsfeed/crates/newsfeed-db/migrations/mssql/20260718000000_init_mssql.sql:440-450 | An actual URL filter null finds a row on Postgres and none on MSSQL |
| `ReadExamples.DoubleSpaceLost` | newsfeed/crates/newsfeed-db/migrations/mssql/20260718000000_init_mssql.sql:114-122 | A title with two inner spaces is stored, and not read back on MSSQL |
| `ReadExamples.UnlistedTitleShowsAll` | newsfeed/crates/newsfeed-db/migrations/mssql/20260718000000_init_mssql.sql:91-106 | A title of unlisted characters brings up the table on MSSQL |
| `ReadExamples.StaleAfterDelete` | newsfeed/crates/newsfeed-server/src/handlers/get.rs:56-69 | One delete after a GET of two rows: the next GET is answered 304 while the table gives another body |
| `ReadExamples.OneTickTwoWrites` | newsfeed/crates/newsfeed-db/migrations/postgres/20260718000000_init_postgres.sql:722-728 | Two inserts within one tick change the table and not its newest date |

## Left out

- Exec: the date conversions of Postgres and MSSQL are one `cast` function; MariaDB keeps the text as sent, as its TEXT column does, so parity assumes dates already in stored form. T-SQL goes on after a failed statement, but every later one then finds nothing to write and the caller sees the error, so the model ends the call there.
- HitOn: when several items of one batch join one row, which of them an engine applies is unspecified; the model takes the first, and every law that depends on it asks for items that are apart.
- Outcomes: the aggregates have no ORDER BY; the model lists statuses in item order, so laws are to be read per item.
- Handler: `If-None-Match` is compared as one exact tag, as the code does; lists, weak tags and `*` of RFC 9110 are not recognised by the code either.
- Injective: 64-bit hash collisions are excluded.
- EveryNotModified: clocks strictly increase between calls, as `NewestStampMoves` shows they must; rows of a table without key that are equal in all five sort columns are read in stored order.
- ExtractParityLaw: the engines are taken to order dates alike, as they do for dates in stored form; MariaDB orders its TEXT dates, the others timestamps.
- UpdateParityMariaMssql: for batches with two items for one row the engines' choice between them is unspecified, so items are apart.
- ExactlyOneWins: only inserts race; updates and deletes of other callers in between, rollbacks and lock waits are not steps of that machine.
- CastInt: a limit text that is no number is treated like a missing one, where an engine would raise an error; no text that the server prints is of that kind.
- ReturningDatabase: Postgres and MSSQL share one class because both derive statuses from the titles their statements give back; their differences are branches on the engine.
- The Postgres and MariaDB regular-expression sanitisers of titles and URLs: library pattern matching; Postgres replaces only the first match because it passes no global flag. The extract laws start from sanitised filters.
- Character case beyond ASCII in the null word and the sort direction.
- JSON text parsing and the HTTP layer: headers, routing, timeouts, CORS, tracing, health, OpenAPI.
- API keys, proxy address lists and pool sizes: only easy members.
- The rate limiter, connection pools, drivers, `nfid` and the scripts.
