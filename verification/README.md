# A verified model of the catalog registry

The registry keeps a list of library catalogs in PostgreSQL, imports them from feed-shaped documents, lets
editors move them through a lifecycle, and answers a top-level feed and a search. This project models the parts
of it where something can go wrong between two lines of code, and proves what they promise for every input, every
run and every schedule. Run `dafny verify dfyconfig.toml` to check it.

| Files | What they model |
|---|---|
| `Wrappers`, `Sorting`, `Text`, `Parameters`, `HeaderText` | optional values, stable sorting and filtering, string operations, header parameters and lists |
| `Lifecycle`, `AdminWrites` | the status machine, one admin write as the session performs it, and any number of concurrent writers |
| `SearchIndex`, `SearchIndexSafety`, `SearchIndexProgress`, `LockOrder` | the derived table `catalog_search` under READ COMMITTED transactions, its invariant over every interleaving, why its transactions finish, and the lock order alone |
| `Catalogs`, `Importer`, `ImportTheorems`, `Reimport`, `ImportWitnesses` | a stored catalog, the import of a document, when each entry keeps a row of its own, and importing again |
| `Rendering`, `RenderedImport` | a catalog as a document, and when that document can be imported again |
| `Language`, `AcceptLanguage`, `Feed`, `FileOrder` | language ranges against tags, the header from its text to its ranges, the ranked feed, and the file's order reaching it |
| `Restrictions` | the `restrict` parameter, in Python and in SQL |
| `SearchQuery`, `SearchQueryTheorems`, `RegistryQuery`, `SearchHits`, `SearchPages` | the search pipeline from the typed text to the last `next` link |
| `ContentCoding`, `AcceptEncoding`, `Compression`, `RefusedIdentity` | the choice of a content coding, the header from its text to that choice, the message-driven middleware, and a client that refuses an uncoded body |
| `AdminLog` | the de-duplicated refusal log |
| `SearchScore` | the score of a search against its ideal answer |

Code that changes state step by step is a class or a method proved against a specification function; what the
source promises is then proved about that function. Protocols with several parties (admin writers, search
transactions, lock callers) are state machines over their steps. PostgreSQL's text functions, UUID derivation,
the compressors, `float` and the collation of titles are parameters, so each theorem holds for any of them.

## Where the code and its documentation differ

The model follows the code. These are the differences it brought out, each with a proof.

* `assert_identities_are_unique` compares one href and one id per entry, while the lookups match any stored
  `catalog` or `shelf` href. Two documents that pass it still overwrite one of their own entries
  (`ImportWitnesses`), and `LandsApartExactlyWithoutClash` gives the exact condition under which none does.
* The comment on `link_rels` says that `self` contributes nothing. `self` is one of the stored relations, so a
  rendered catalog is imported exactly when its row has an identity link and does not yet store the `self` link
  (`RenderedImportExactlyWhen`). The import stores that link, so it works once: the second is refused
  (`SecondRoundIsRefused`).
* The module comment of the restrictions says the SQL repeats the Python rules. `strip` removes every kind of
  whitespace and `trim` spaces only, so a media type padded with a tab is kept by the feed and dropped by the
  search (`OtherPaddingTellsThemApart`); `SqlAllowsExactly` is the exact relation.
* A client that refuses `identity` still gets an uncoded body when the body is under 1024 bytes
  (`RefusedIdentityIsSentWhenSmall`); `br,identity;q=0` is such a client's header (`ShortBodyLeavesUncoded`).
* "1.0 is the ideal answer, in order, with nothing else" holds up to ten expected titles, and only the title
  that has to lead is ordered. With more titles, ten of them score 1 as well (`MissingTitlesAreNotSeen`).

Under the registry's limits the paging does what it says: following `next` gives the counted hits because the page
size, 50, divides the cap, 100 (`ServedCrawl`). For other limits it does so only when the page size divides the cap
or no more hits than the cap exist (`CrawlGivesTheFirstHits`).

## Model

| member | source | states |
|---|---|---|
| Lifecycle.UndoTableIsTheInverse | src/registry/domain/lifecycle.py:54-63 | the undo table lists exactly the actions, other than unarchive, that some action takes back to the previous status, and names that action |
| Lifecycle.OfferedMeansAccepted | src/registry/domain/lifecycle.py:66-72 | the actions offered are exactly those the write would accept from a caller who has seen the row |
| Lifecycle.EditAndDeleteAreOffered | src/registry/domain/lifecycle.py:66-72 | of the other actions, editing is offered until a catalog is archived and deleting only for a draft |
| Lifecycle.TransitionsAreDrawn | src/registry/domain/lifecycle.py:45-52 | the table is the lifecycle diagram: which statuses may take an action, and the one status each action leads to |
| Lifecycle.UndoRestoresStatus | src/registry/services/admin_service.py:178-196 | taking the returned undo action at once restores the previous status and flag, two versions later |
| Lifecycle.StepRules | src/registry/cli/seed.py:336-344 | one admin write or import keeps rows dated, never returns one to draft, leaves archived only for unpublished; an import changes status only from draft to published and never the version |
| Lifecycle.EveryRowIsDated | src/registry/repositories/admin_repository.py:406-417 | over every serial run of admin writes and imports, a row that has left draft has a publication date |
| Lifecycle.NoRowReturnsToDraft | src/registry/domain/lifecycle.py:45-52 | over every such run no row returns to draft |
| Lifecycle.ArchivedGoesThroughUnpublished | src/registry/domain/lifecycle.py:45-52 | between archived and published there is a step that left the row unpublished |
| AdminWrites.CatalogWriter.LockSeenCatalog | src/registry/services/admin_service.py:164-175 | returns the row when it is there at the version seen, and otherwise says which of the two failed |
| AdminWrites.CatalogWriter.PersistCatalogStatus | src/registry/repositories/admin_repository.py:409-417 | the row has the status one version later, keeps its flag, is dated when it goes live and keeps its date otherwise; every other row stays |
| AdminWrites.CatalogWriter.PersistCatalogRecommended | src/registry/repositories/admin_repository.py:419-424 | a flag that already has the value changes nothing, the version included; otherwise the row has it one version later, with its status and date, and every other row stays |
| AdminWrites.CatalogWriter.ApplyAdminTransition | src/registry/services/admin_service.py:178-196 | accepted exactly for a permitted caller, a stored id, the version seen and an action the status may take; then the row has the landing status one version later, its flag, and a new date only when it goes live; otherwise nothing is stored and the error is permission, then id, then version, then lifecycle |
| AdminWrites.CatalogWriter.ApplyAdminRecommendation | src/registry/services/admin_service.py:199-213 | the same for the recommendation: permission, id, version, published; setting the flag to the value it has stores nothing new |
| AdminWrites.TakeKeepsSound | src/registry/services/admin_service.py:164-213 | every step of every writer keeps the protocol's invariant: locks are exclusive, a locked writer still sees the committed row, the log replays to the rows |
| AdminWrites.RowsReplayTheLog | src/registry/repositories/admin_repository.py:400-404 | however the writers are scheduled, the rows are the replay of the committed effective writes |
| AdminWrites.VersionsCountTheWrites | src/registry/repositories/admin_repository.py:409-424 | the k-th effective write on a catalog named the version k past the first, and the version grows by one for each |
| AdminWrites.AtMostOneWritePerSeenVersion | src/registry/services/admin_service.py:171-174 | of all writers that changed a catalog, no two had seen the same version |
| AdminWrites.FreeWriterCommits | src/registry/services/admin_service.py:164-213 | a writer that finds its row free can lock, write and commit, and then the row is what its request makes of it |
| AdminWrites.EveryRunIsSerial | src/registry/services/admin_service.py:164-213 | from the start of any run: final rows are the replay, exactly the effective writers are logged, refused and no-op writes change nothing |
| AdminWrites.UnloggedRowsAreUnchanged | src/registry/repositories/admin_repository.py:419-424 | a row without a logged write is as it was |
| SearchIndex.SearchTables.RefreshCatalogSearch | migrations/versions/a3f19c7d8e42_admin_status_lifecycle_and_actors.py:50-94 | afterwards every catalog asked for has a row exactly when published, with its title and city, the names of its country and of each of its subdivisions in English and the official languages, and no others; no other row changed |
| SearchIndex.SearchTables.RefreshEveryCatalog | migrations/versions/a3f19c7d8e42_admin_status_lifecycle_and_actors.py:50-94 | one call over all ids makes the whole index current, each row with what the tables say |
| SearchIndex.SameInputsSameDocument | migrations/versions/a3f19c7d8e42_admin_status_lifecycle_and_actors.py:66-91 | the document depends on title, city, country, status and the set of subdivisions alone |
| SearchIndex.RebuildDescribes | migrations/versions/a3f19c7d8e42_admin_status_lifecycle_and_actors.py:66-91 | the rebuilt document has exactly the title, city, country names and subdivision names that the tables give |
| SearchIndex.StatementsDoWhatTheySay | migrations/versions/a3f19c7d8e42_admin_status_lifecycle_and_actors.py:50-94 | each of the five writes changes what its transaction reads as it says, a refresh changes search rows only, a commit publishes all of it and an abort none |
| SearchIndexSafety.UnwatchedUpdateKeepsCurrent | migrations/versions/a3f19c7d8e42_admin_status_lifecycle_and_actors.py:108-112 | an update outside the watched columns leaves every search row as current as it was, so it needs no refresh |
| SearchIndexSafety.StepKeepsSound | migrations/versions/a3f19c7d8e42_admin_status_lifecycle_and_actors.py:50-94 | every statement of every transaction keeps the invariant: a transaction holds the lock of what it wrote and does not still owe, and what it would read back is current but for what it owes |
| SearchIndexSafety.CommitKeepsOthersCurrent | migrations/versions/a3f19c7d8e42_admin_status_lifecycle_and_actors.py:54-60 | a commit leaves what another transaction reads back current |
| SearchIndexSafety.LockedRowsReadTheSame | migrations/versions/a3f19c7d8e42_admin_status_lifecycle_and_actors.py:58-60 | a commit changes nothing a transaction reads of the rows it has locked, so its snapshot stays good |
| SearchIndexSafety.RunKeepsSound | migrations/versions/847ef861dbdb_v02_search_schema.py:213-254 | the invariant holds after any run of any number of transactions |
| SearchIndexSafety.CommittedIndexIsAlwaysCurrent | migrations/versions/847ef861dbdb_v02_search_schema.py:213-254 | in every committed state of every interleaving there is exactly one search row per published catalog, and it says what the committed tables say: title, city, and the names of country and subdivisions |
| SearchIndexSafety.WithoutTheLockAnUpdateIsLost | migrations/versions/a3f19c7d8e42_admin_status_lifecycle_and_actors.py:54-60 | without the lock statement two transactions that each add a subdivision leave a committed row that misses one of them |
| SearchIndexProgress.FollowTheLocks | migrations/versions/a3f19c7d8e42_admin_status_lifecycle_and_actors.py:57-60 | the chain of waits from a waiting transaction goes to ever larger ids and ends at one that can go on |
| SearchIndexProgress.WritersNeverDeadlock | migrations/versions/a3f19c7d8e42_admin_status_lifecycle_and_actors.py:57-60 | in every state that transactions of one write each can reach, row locks of their UPDATEs included, any unfinished one can take a step towards its commit, or else another that holds a lock can |
| SearchIndexProgress.EveryWriterFinishes | migrations/versions/a3f19c7d8e42_admin_status_lifecycle_and_actors.py:57-60 | from such a state on every schedule without new and aborted transactions is bounded, and stops exactly when all have committed |
| SearchIndexProgress.QuietWriteCommits | migrations/versions/a3f19c7d8e42_admin_status_lifecycle_and_actors.py:108-112 | in a quiet database every write that keeps the constraints can be committed, and the tables then hold it |
| LockOrder.FollowTheWaits | migrations/versions/a3f19c7d8e42_admin_status_lifecycle_and_actors.py:57-60 | with ascending orders, the chain of waits from any unfinished caller ends at one that can step |
| LockOrder.EveryScheduleFinishes | migrations/versions/a3f19c7d8e42_admin_status_lifecycle_and_actors.py:57-60 | any number of calls over any id sets: every schedule is bounded and stops exactly when all have finished |
| LockOrder.WithoutOrderTwoCallersDeadlock | migrations/versions/a3f19c7d8e42_admin_status_lifecycle_and_actors.py:57-60 | in the callers' own orders two of them wait for each other for ever |
| Importer.ImportsIsDeterministic | src/registry/cli/seed.py:279-351 | a document has at most one effect on a store in which no identifying href belongs to two rows |
| Importer.ImportedRowIs | src/registry/cli/seed.py:286-351 | what an import stores, field by field, for a new and for a stored row, and that no other row changes |
| Importer.ContentIsAsWritten | src/registry/cli/seed.py:169-220 | gray unless a color is given, tags normalised, one link for every rel the registry knows, everything else as written |
| Importer.IdIsNamedOrDerived | src/registry/cli/seed.py:106-138 | the id is derived from the href without an identifier or with an empty one, and otherwise read from it, with or without a `urn:uuid:` prefix in either case |
| Importer.CodesMean | src/registry/cli/seed.py:227-230 | which country and subdivision codes are well-formed |
| Importer.ConstraintsMean | src/registry/db/models/link.py:22-46 | no rel has one href twice, no href is both `catalog` and `shelf` of one catalog, and none is shared between two |
| Importer.ImportSession.ResolveExistingCatalog | src/registry/cli/seed.py:141-166 | finds a row the document claims, by id first and by href otherwise, and none when there is none |
| Importer.ImportSession.ImportCatalogDocument | src/registry/cli/seed.py:279-351 | succeeds exactly when the document can be imported; then one row is written, as the document says and with its stamp: a new one published at version 1 and dated, a stored one with its version, its date if it has one and its status unless it was a draft; the errors come in the order code shape, identity, UUID, constraint |
| Importer.ImportSession.AssertIdentitiesAreUnique | src/registry/cli/seed.py:354-398 | passes exactly when every entry resolves and no two resolve to one href or one id; otherwise the error is that of the first entry that fails, a shared href before a shared id |
| Importer.ImportSession.ImportFeedDocument | src/registry/cli/seed.py:436-473 | succeeds exactly when the document passes the schema, no two entries share an identity, the subdivisions are known and every entry can be imported, a tick apart; counts created and updated entries; the error names the first of these checks that fails |
| Importer.ImportSession.SeedFromFile | src/registry/cli/seed.py:502-512 | one transaction: any error leaves the database as it was |
| ImportTheorems.IdentityIsTheFirstCatalogLink | src/registry/cli/seed.py:89-103 | the identity is the href of the first `catalog` link, and of the first `shelf` link only without one |
| ImportTheorems.OwnHrefIsStored | src/registry/cli/seed.py:208-220 | an entry stores the href it is recognised by |
| ImportTheorems.TakesItsOwnRow | src/registry/cli/seed.py:141-166 | without a clash the next entry takes a row no earlier one has taken |
| ImportTheorems.SharedHrefOverwrites | src/registry/db/models/link.py:29-46 | of entries that land apart, none is recognised by an href an earlier one stores |
| ImportTheorems.SharedRowOverwrites | src/registry/cli/seed.py:141-166 | of entries that land apart, none names a stored row that an earlier one, not found by id, is recognised on |
| ImportTheorems.LandsApartExactlyWithoutClash | src/registry/cli/seed.py:354-398 | an import that goes through gives every entry a row of its own exactly when nothing clashes, a condition on the document and the stored rows |
| ImportTheorems.RowsGrowByCreated | src/registry/cli/seed.py:462-473 | the table grows by the number of entries reported as created, clash or not |
| ImportTheorems.EveryEntryOnItsOwnRow | src/registry/cli/seed.py:279-351 | without a clash every entry is stored as written on its own row, with its stamp and the lifecycle of a new or a kept row, and no other row changed |
| Reimport.ImportingAgainOnlyRestamps | src/registry/cli/seed.py:286-297 | importing the same document again at once creates nothing, finds every row again, and changes `created_at` alone |
| ImportWitnesses.ShelfOfOneIsCatalogOfAnother | src/registry/cli/seed.py:354-398 | for every registry and any two hrefs: a document that passes the check and whose second entry replaces its first, through the first one's shelf |
| ImportWitnesses.StoredRowClaimedTwice | src/registry/cli/seed.py:354-398 | the same for every registry and any UUID text, through a stored row that one entry is recognised on and the other names |
| FileOrder.RecommendedKeepsFileOrder | src/registry/repositories/catalog_repository.py:42-53 | after an import without a clash the recommended query lists the published entries in file order |
| FileOrder.FeedKeepsFileOrder | src/registry/services/feed_service.py:40-67 | and so does every bucket, range and depth of the feed, for every `Accept-Language` and restriction |
| Restrictions.LinksKeepTheRestriction | src/registry/domain/restrictions.py:30-52 | a restriction written into a link is accepted and read back |
| Restrictions.WrittenNamesAreRead | src/registry/domain/restrictions.py:21-52 | names in any order and any number of times are accepted exactly when all are known, and each asks for its own restriction |
| Restrictions.OpdsTypeIsRead | src/registry/domain/restrictions.py:55-57 | a media type counts exactly when it is the name in any case, blanks around it, and nothing or parameters after a semicolon |
| Restrictions.AllowsMeans | src/registry/domain/restrictions.py:60-69 | what each restriction asks: a `catalog` link of that type; not open; a type besides audiobooks or none listed |
| Restrictions.SqlMatchesMediaType | src/registry/repositories/search_repository.py:86-89 | the SQL test of a media type is the Python one among types padded only with spaces |
| Restrictions.SqlAllowsExactly | src/registry/repositories/search_repository.py:86-96 | the SQL clauses allow a catalog exactly when Python does and, for `opds`, some link with the type has no other padding |
| Restrictions.SqlAllowsTheSame | src/registry/domain/restrictions.py:60-69 | the two forms agree where media types are padded only with spaces |
| Restrictions.OtherPaddingTellsThemApart | src/registry/domain/restrictions.py:55-57 | any other whitespace before the type of the only link separates them |
| Parameters.Partition | src/registry/domain/language.py:63-65 | the text splits at its first '=' |
| Parameters.PartitionOfParameter | src/registry/domain/language.py:63-65 | a name without '=' and a value, joined by '=', are split into the two again |
| Parameters.QualityIsWritten | src/registry/domain/language.py:63-65 | a parameter sets the quality exactly when it reads `q` in either case, blanks around it, then '=' and the value, or is the bare name |
| Language.NormaliseIsIdempotent | src/registry/domain/language.py:47-49 | normalising a tag twice is normalising it once |
| Language.NormalFormIs | src/registry/domain/language.py:47-49 | the normal form is the text between the blanks, in lower case, with hyphens for underscores |
| Language.FirstQualityCounts | src/registry/domain/language.py:56-73 | the first `q` parameter counts, clamped, and 1 stands for a missing or unreadable one |
| Language.ParseAcceptLanguage | src/registry/domain/language.py:76-98 | the loop computes the ranges of the header's first fifty elements, sorted |
| Language.ParsedLanguagesAreRanked | src/registry/domain/language.py:76-98 | ranges fall in quality, keep the client's order within one quality, number at most fifty, and refused ones stay |
| AcceptLanguage.HeaderIsRead | src/registry/domain/language.py:76-98 | for every header text: one range for each of the first fifty elements that name a tag, with the normalised text before its first semicolon and the quality its first `q` sets, best first and in header order within one quality |
| HeaderText.EveryHeaderIsWritten | src/registry/domain/language.py:92-93 | every header is a list of elements with parameters, so that covers all of them |
| Language.MatchDepth | src/registry/domain/language.py:114-133 | the loop computes the depth specified on subtags |
| Language.MatchOnRawStrings | src/registry/domain/language.py:114-133 | two tags match exactly when they are equal or one continues the other after a hyphen; the depth is the smaller subtag count; the relation is symmetric |
| Language.StrippedTagIsAPrefix | src/registry/domain/language.py:101-111 | what is left of a tag is its subtags before the first singleton |
| Language.AcceptsMeans | src/registry/domain/language.py:101-133 | a range accepts a tag exactly when it is not refused and is the wildcard or, cut before its first single-character subtag, is the tag or one of the two continues the other after a hyphen; and at which depth |
| Language.RankLanguageMatch | src/registry/domain/language.py:162-189 | the two loops compute the specified rank |
| Language.RankIsLeastAndOrderFree | src/registry/domain/language.py:162-189 | the rank is the least (position, -depth) over all acceptable pairs, and does not depend on the order or repetition of tags |
| Language.RankedWhenAccepted | src/registry/domain/language.py:177-189 | there is a rank exactly when some range of quality above 0 accepts some tag |
| Language.MatchLanguageRanges | src/registry/domain/language.py:136-159 | the loops compute the specified list of tags |
| Language.RankAgreesWithMatched | src/registry/domain/language.py:136-189 | there is a rank exactly when that list is not empty, and then the winning range accepts its first tag; no tag repeats |
| Language.MatchedInOrder | src/registry/domain/language.py:136-159 | the matched tags come by the first range that accepts them, and within one range in the order supplied |
| Feed.RecommendedIgnoresTheScan | src/registry/repositories/catalog_repository.py:42-53 | the recommended query does not depend on how the table is laid out |
| Feed.RecommendedIsListed | src/registry/repositories/catalog_repository.py:46-53 | it lists exactly the published recommended rows, each once, newest first |
| Feed.RecommendedMeans | src/registry/repositories/catalog_repository.py:42-53 | who is listed, on the columns, and the order: newest first, then title, then id |
| Feed.ResolveTopLevelFeed | src/registry/services/feed_service.py:40-67 | the list built in a loop and sorted by key is the specified feed |
| Feed.RestrictingCommutesWithRanking | src/registry/services/feed_service.py:51-67 | the restricted feed is the feed, filtered, in the same order |
| Feed.FeedMembers | src/registry/services/feed_service.py:22-37 | who is in: the allowed catalogs without languages or with one that some range accepts |
| Feed.FeedMembersMean | src/registry/services/feed_service.py:22-37 | the same on the texts of ranges and tags |
| Feed.FeedIsRanked | src/registry/services/feed_service.py:16-37 | by bucket, range, depth and age |
| Feed.FeedOrderMeans | src/registry/services/feed_service.py:22-37 | of two listed catalogs the first has the better match, or the same and is not the older; those without languages come after every match |
| Feed.GroupsKeepRepositoryOrder | src/registry/services/feed_service.py:53-55 | the sort is stable: within a group the repository's order stays |
| SearchQuery.NextTokenIsTheMatch | src/registry/domain/search_query.py:21-22 | the lexer takes the one match the token pattern describes at a position: a closed phrase, or the longest run without whitespace |
| SearchQuery.ParseSearchQuery | src/registry/domain/search_query.py:40-65 | the loop with its early break computes the specified chunks |
| SearchQueryTheorems.ChunksAreBounded | src/registry/domain/search_query.py:49-63 | at most sixteen chunks, each a phrase that is not blank or a word that is not a bare OR |
| SearchQueryTheorems.ChunksAreStable | src/registry/domain/search_query.py:52-61 | the kept chunks are well-formed, and no quote follows a word that opens one |
| SearchQueryTheorems.RewritingIsReadBack | src/registry/domain/search_query.py:52-63 | every such list, negated chunks included, written with single spaces is split into the very same list, and into its first chunks when there is less room |
| SearchQueryTheorems.PassedOverLeavesNoTrace | src/registry/domain/search_query.py:52-61 | a bare OR in any case and a blank phrase, negated or not, are skipped and the rest is split as if it stood alone |
| SearchQueryTheorems.CleaningKeepsTheFirst | src/registry/domain/search_query.py:40-48 | U+0000 is dropped wherever it stands, and then the first 256 characters are kept |
| SearchQueryTheorems.TextsAreInOrder | src/registry/domain/search_query.py:52-63 | positives and negatives each keep the order of the text |
| SearchQueryTheorems.WrittenQueryIsParsed | src/registry/domain/search_query.py:40-65 | a query written from such a list, within both limits, is parsed into exactly its positives and negatives |
| SearchQueryTheorems.SplittingIsStable | src/registry/domain/search_query.py:52-63 | so splitting what splitting gave, written down, gives it again |
| SearchQueryTheorems.ParsingIsStable | src/registry/domain/search_query.py:40-65 | parsing the positives again, joined by single spaces within the length limit, gives the same positives and no negatives |
| SearchQueryTheorems.TrigramTextIsClean | src/registry/domain/search_query.py:64 | no quotes, nothing at the ends, single spaces between, and the words of the positives |
| RegistryQuery.RegistryQuery | migrations/versions/847ef861dbdb_v02_search_schema.py:261-281 | the two loops build the specified query |
| RegistryQuery.QueryMeans | migrations/versions/847ef861dbdb_v02_search_schema.py:259-281 | whatever the chunks parse to: no query exactly when every positive parses to nothing; otherwise it matches exactly when some positive matches and no negative does |
| SearchHits.HitsAre | src/registry/repositories/search_repository.py:62-97 | the statement's rows are exactly the hits, each once |
| SearchHits.RankedIsHits | src/registry/repositories/search_repository.py:68-97 | a catalog is a hit exactly when listed, allowed, and a word hit or else a trigram hit; tier, score and date are then determined, so it is a hit once |
| SearchHits.RankedRowsMean | src/registry/repositories/search_repository.py:62-97 | every row of the result column by column: who is a word hit, who a trigram hit, and the score, tier and date of each |
| SearchHits.NoNegatedChunkHits | src/registry/repositories/search_repository.py:74-81 | no catalog that matches a negated chunk is a hit, in either tier |
| SearchHits.HitsAreRanked | src/registry/repositories/search_repository.py:103-105 | every word hit stands before every trigram hit; within a tier the score falls, then the date, then the id rises |
| SearchHits.RankedIgnoresTheScan | src/registry/repositories/search_repository.py:103-105 | the order does not depend on how the index rows are laid out |
| SearchHits.RestrictingCommutesWithRanking | src/registry/repositories/search_repository.py:82-97 | the restricted hits are the unrestricted ones, filtered, in the same order |
| SearchHits.SearchRestrictsAsTheFeedDoes | src/registry/domain/restrictions.py:9-10 | filtered by the feed's rule where media types are padded only with spaces |
| SearchHits.CurrentIndexIsFresh | migrations/versions/847ef861dbdb_v02_search_schema.py:213-214 | where every search row is current, a search sees what an index rebuilt on the spot would show |
| SearchPages.RenderSearchResults | src/registry/rendering/search_renderer.py:54-85 | the links of a page, each with where it leads, or that it is missing, and no others |
| SearchPages.ResolveSearch | src/registry/services/search_service.py:13-38 | a page shows the capped total, its slice of the ranked hits and the specified `next` |
| SearchPages.RankingMeans | src/registry/services/search_service.py:13-38 | a query without a positive chunk finds nothing; any other is searched |
| SearchPages.LinkIsReadBack | src/registry/rendering/search_renderer.py:40-47 | a link leads to the page it names with the same query and restriction, is accepted exactly up to the last page, and leaves out the number of page 1 and an empty restriction |
| SearchPages.NextExactlyWhenAPageFollows | src/registry/rendering/search_renderer.py:74-75 | `next` is there exactly when the following page is accepted and not empty, for any page size |
| SearchPages.CrawlGivesTheFirstHits | src/registry/domain/search_query.py:12-17 | following `next` gives the first hits in rank order under one constant count; they are the counted ones exactly when the page size divides the cap or the cap is not exceeded |
| SearchPages.ServedCrawl | src/registry/domain/search_query.py:12-17 | with the registry's limits: the first hundred hits |
| ContentCoding.ReadableMeans | src/registry/api/compression.py:58-67 | one unreadable `q` drops the coding, wherever it stands |
| ContentCoding.LastQualityCounts | src/registry/api/compression.py:58-65 | otherwise the last `q` counts, clamped, and 1 stands for none |
| ContentCoding.ParseAcceptEncoding | src/registry/api/compression.py:47-68 | the loops fill the specified dictionary |
| ContentCoding.LastPartWins | src/registry/api/compression.py:52-68 | a name has the quality of the last readable part that gives it |
| AcceptEncoding.HeaderIsWeighed | src/registry/api/compression.py:47-68 | for every header text: a coding has the quality that the last `q` of the last readable element naming it sets, clamped, and 1 without one |
| ContentCoding.ChooseEncoding | src/registry/api/compression.py:71-86 | the loop computes the specified choice |
| ContentCoding.ChosenIsTheBestOffered | src/registry/api/compression.py:71-86 | the highest quality, the first such coding in the server's order, and none exactly when every offered coding has quality 0 |
| AcceptEncoding.ChosenIsWantedMost | src/registry/api/compression.py:71-86 | a coding is chosen exactly when it is wanted, more than the ones before it and no less than the ones after; what is not named counts as `*`, and zstd as nothing |
| AcceptEncoding.ServerPrefersZstd | src/registry/api/compression.py:71-86 | and so which of zstd, brotli and gzip is chosen, from the three qualities |
| ContentCoding.NotAcceptableExactlyWhen | src/registry/api/compression.py:89-101 | nothing acceptable exists exactly when the header refuses every offered coding, zstd by not naming it, and an uncoded body |
| Compression.AddVaryKeepsTheRest | src/registry/api/compression.py:153-157 | `Vary` names the header, keeps what was there, changes nothing else, and adding twice is adding once |
| Compression.VaryIs | src/registry/api/compression.py:153-157 | the value it has afterwards, in each of the three cases |
| Compression.CompressionMiddleware.Respond | src/registry/api/compression.py:209-248 | one message changes the request's variables, what is sent and what is logged as specified |
| Compression.CompressionMiddleware.Call | src/registry/api/compression.py:250-257 | a whole run of the inner application, raising or not, has the specified outcome |
| Compression.Handle | src/registry/api/compression.py:183-207 | a client that refuses everything gets one uncoded 406 with a problem document, its length and `Vary`, and one log line, and the application is not called |
| Compression.ResponseIsBuffered | src/registry/api/compression.py:220-248 | every finished response leaves as one start and one body, with one log line |
| Compression.ResponseIsIntact | src/registry/api/compression.py:230-248 | the body is coded exactly when a coding was chosen, it is large enough and not coded yet; it then decodes to the chunks in order and otherwise is them; the length is right; only coding, length and `Vary` differ; one log line |
| Compression.ChunksJoinInOrder | src/registry/api/compression.py:226-230 | the body is the chunks in the order they came |
| Compression.ChunkingDoesNotMatter | src/registry/api/compression.py:226-230 | how the body was cut does not matter |
| Compression.NothingIsSentBeforeTheEnd | src/registry/api/compression.py:250-257 | an application that raises before its last chunk has sent nothing and is logged once, as a 500 |
| Compression.HeadPassesThrough | src/registry/api/compression.py:211-219 | a HEAD run passes through as it is but for `Vary`, whatever the application sends |
| Compression.OthersPassThrough | src/registry/api/compression.py:223-225 | messages that are no part of a response are sent as they are, all and in order, in every run |
| Compression.RefusedIdentityIsSentWhenSmall | src/registry/api/compression.py:234-238 | a client that refuses identity gets an uncoded body exactly when it is under 1024 bytes |
| RefusedIdentity.BrotliOnlyIsAnswered | src/registry/api/compression.py:89-101 | the header `br,identity;q=0` refuses an uncoded body, is not a 406, and chooses brotli |
| RefusedIdentity.ShortBodyLeavesUncoded | src/registry/api/compression.py:234-238 | a short body is sent uncoded to that client |
| AdminLog.AdminLogger.LogAdminRefusal | src/registry/api/admin_log.py:67-94 | one refusal changes the table and the lines as specified, the line with its severity, method, path, request id and shortened user agent |
| AdminLog.LineIsDueExactlyWhen | src/registry/api/admin_log.py:67-81 | in every run a refusal writes a line exactly when its caller is unidentified and no line for the same status, reason and user agent was written less than a minute before and is still known |
| AdminLog.LineSays | src/registry/api/admin_log.py:81-94 | what the line says of the refusal, field by field |
| AdminLog.RefusalsAreConserved | src/registry/api/admin_log.py:67-94 | refusals = lines + skips reported + skips pending + skips dropped by a clear, over every run |
| AdminLog.TableIsBounded | src/registry/api/admin_log.py:25-26 | the table never holds more than a thousand keys |
| AdminLog.LineReportsTheSkips | src/registry/api/admin_log.py:9-10 | a line reports exactly the identical refusals since the one before, unless a clear came between |
| AdminLog.LinesAreAMinuteApart | src/registry/api/admin_log.py:74-81 | two lines for one key less than a minute apart mean a clear between them |
| SearchScore.HitsAreBounded | tests/search_quality.py:68-69 | the rearrangement: distinct titles earn most when those of a set lead, and only then |
| SearchScore.IdealIsTheBest | tests/search_quality.py:84 | the ideal is the sum over the leading positions, plus that of the leader, and is positive |
| SearchScore.ScoresAreFractions | tests/search_quality.py:72-86 | for duplicate-free results ndcg and score lie between 0 and 1 |
| SearchScore.ScoreMeans | tests/search_quality.py:72-86 | recall, precision and ndcg as the shares they are, and the score as the product of the last two |
| SearchScore.EmptyExpectation | tests/search_quality.py:72-78 | expecting nothing scores 1 for nothing and 0 otherwise; no judgement, no score |
| SearchScore.ScoreOneExactlyWhen | tests/search_quality.py:72-86 | a score of 1 means: only expected titles, ten of them or all, led by the one that has to lead |
| SearchScore.ScoreOneIsTheIdealAnswer | tests/search_quality.py:9-10 | up to ten expected titles it means the ideal answer |
| SearchScore.MissingTitlesAreNotSeen | tests/search_quality.py:29 | beyond ten expected titles, ten of them led by the right one score 1 although others are missing |
| Rendering.RenderLink | src/registry/rendering/catalog_renderer.py:21-31 | the keys of a link, empty texts left out |
| Rendering.RenderCatalog | src/registry/rendering/catalog_renderer.py:47-86 | the document, key by key, is the specified one |
| Rendering.MetadataSays | src/registry/rendering/catalog_renderer.py:47-81 | the metadata field by field: the URN, empty texts left out, the country in capitals, every collection in the order of its names |
| Rendering.LinksSay | src/registry/rendering/catalog_renderer.py:34-86 | the links: the registry's own address first, then the stored links one rel each, empty texts left out |
| Rendering.LinksStandInOrder | src/registry/domain/links.py:13-44 | the order of the rels, and of the hrefs within one |
| Rendering.RenderingIgnoresOrder | src/registry/rendering/catalog_renderer.py:47-81 | the document does not depend on the order in which any collection was read, links being unique by rel and href |
| Rendering.OrderLinksIgnoresOrder | src/registry/domain/links.py:35-44 | so the order of the links is determined |
| Rendering.ImportingARenderedCatalog | src/registry/cli/seed.py:106-138 | a rendered document resolves to the same id and rebuilds the same row, but for empty texts, the order of collections and one more link |
| Rendering.ForeignLinksSurvive | src/registry/cli/seed.py:208-220 | the links other than `self` are the same ones, each as often |
| RenderedImport.RereadFitsExactly | src/registry/db/models/link.py:22-46 | of what such an import would store, the constraints hold exactly when the row does not store its own `self` link |
| RenderedImport.RenderedResolves | src/registry/cli/seed.py:89-138 | a rendered catalog can be recognised exactly when its row has a `catalog` or `shelf` link, and then under its own id |
| RenderedImport.RereadKeepsIdentity | src/registry/db/models/link.py:29-46 | the hrefs the row is recognised by are the same afterwards |
| RenderedImport.RenderedImportExactlyWhen | src/registry/cli/seed.py:279-351 | importing the rendering of a stored row goes through exactly when the row has an identity link and does not store its own link, and then on that row with one result |
| RenderedImport.RenderedImportKeepsTheRest | src/registry/cli/seed.py:279-351 | it changes no other row, keeps the version and any status but draft, and leaves the `self` link stored |
| RenderedImport.SecondRoundIsRefused | src/registry/cli/seed.py:76-83 | and so importing the rendering of the result is refused, whatever the clock and the other rows |

## Left out

- The HTTP routes, schemas, tokens, security headers and problem documents: plumbing around the modelled functions.
- Deleting catalogs and the cascade to `catalog_search`; no route deletes one yet.
- The key-share lock a subdivision takes on its catalog, which conflicts with nothing that is modelled.
- The `updated_at` trigger, so importing again is said to change `created_at` alone among the columns modelled.
- Imports run alone: two concurrent imports, or an import beside an admin write, are not modelled; the importer takes no lock and does not raise `version`.
- The JSON Schema itself: which documents pass it is a parameter of the registry.
- Flush timing inside one import: each entry's constraints are checked as if it were flushed before the next lookup.
- Floating point: qualities, scores and discounts are exact; a NaN quality of `Accept-Language`, which escapes its clamp, is left out, while one of `Accept-Encoding` is modelled.
- Case folding outside ASCII, and Unicode normalisation.
- Response headers that occur twice, and the digits of `Content-Length`.
- What one log call writes: `log_client_request` is one line here, whatever path it is for.
- Percent-encoding of link parameters: a link is its parameters.
- The admin list, places and detail reads, and their paging, which has the shape of the search's.
- `summarise` and the generated Markdown page: averages and text.
- Compressors, text search functions, UUID derivation and the title collation are parameters.
- SearchIndex.SearchTables.RefreshCatalogSearch: leaves its lock statement to the transaction model, where locks mean something.
- SearchIndexProgress.WritersNeverDeadlock: covers transactions of one write statement each; with several, two transactions can hold rows out of order.
- LockOrder.EveryScheduleFinishes: covers callers that hold nothing before their one call, over any id sets; `SearchIndexProgress` counts the row a write already holds.
- Language.NormaliseIsIdempotent: folds the case of ASCII letters only.
- Language.FirstQualityCounts: reads no NaN, which the clamp lets through.
- SearchPages.LinkIsReadBack: leaves percent-encoding and its decoding to the HTTP library.
- Compression.Handle: the 406 has its content type but not the fixed security headers.
- SearchHits.SearchRestrictsAsTheFeedDoes: needs the padding condition, because the two forms differ without it.
- Rendering.ImportingARenderedCatalog: says what would be stored; when the import goes through is `RenderedImport.RenderedImportExactlyWhen`.
