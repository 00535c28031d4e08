# Verified models of Tracecat's stateful core

A Dafny 4.11 project that models parts of Tracecat and proves what they promise. `dafny verify dfyconfig.toml`
checks all of it. Each file is one module.

**Keyset pagination** (`tracecat/pagination.py`) is modelled from the ORDER BY clause to the string cursor a
client hands back.

- `Ordering`, `OrderClauses`: order keys (direction, null placement), the lexicographic order they denote on
  key tuples, and how a clause with nested modifiers is read. A key value is null or a `real`, its place in the
  order of its column: a column orders countably many values, and every countable linear order embeds in the
  reals. What Python and JSON make of the values is a separate matter, below.
- `SeekPredicate`: the WHERE predicate as a SQL expression, evaluated in three-valued logic.
- `PageQuery`, `Paginator`: the `limit + 1` query as a relation (the order of tied rows is free), the tie test,
  page and cursor construction. A table is a set of rows; `Step` relates a request to every outcome it may have.
  The code sees key values through a `Driver`: its tie test compares fetched and serialised values, and a cursor
  is compared as what comes back from JSON. Where the driver is `Exact`, `Step` is the request on the database's
  own values.
- `Walks`, `Blocks`: whole client walks. Each visit of a walk has its own table, so a walk ranges over every
  interleaving of requests with inserts and deletes, and page sizes may change on the way. Unique keys are
  assumed only where a statement says so, and exact drivers are a stated premise.
- `Reliability`: exactly which drivers and row domains make every forward walk right.
- `FetchedValues`, `Base64Url`, `CursorCodec`, `TokenWalks`, `Fingerprint`: Python's values and their equality,
  the token format, requests and walks over string tokens, the canonical form of `IN` values. JSON text, value
  adapters and the keyed hash are function parameters, and what they must do is a named predicate (`ParsesBack`,
  `FaithfulTuple`, `Ordinary`, `SelfDelimiting`).
- `TieCheck`, `KeyExamples`: what becomes of the values of each column type on the way, which tied rows the test
  misses, which distinct rows it takes for tied, which keys a cursor cannot carry, and walks that lose rows.

**The legacy-column migration** (`LegacyColumns`), **case numbers** (`CaseNumbers`), **the entitlement cache**
(`EntitlementCache`), **loop-device synchronisation** (`LoopDevices`), **future rejoin** (`FutureRejoin`), **object
paths** (`ObjectPaths`), **the catalog backfill** (`CatalogBackfill`, `CatalogEffect`) and **base62** (`Base62`) each have a module of
the same kind: the operations as the code performs them, then what holds over every run. `Common`, `Sequences`
and `Decimals` hold shared definitions.

Some promises do not hold of the code on all inputs. For those the project states exactly when they do:

- A client walk returns each row present throughout exactly once, in strictly increasing order, and complains of
  ties only where there are some, if and only if the tie test tells apart exactly the rows the database tells
  apart, and each cursor with rows still to come comes back as a place where its row lies
  (`Reliability.ReliableExactly`). Keys that break this (`TieCheck.DetectionFaults`, `TieCheck.TableIsExact`):
  - JSON null in a JSON column is not SQL NULL but is fetched as None, and its cursor comes back as SQL NULL. With
    nulls last the rows behind it are lost, with nulls first rows are returned again (`TieCheck.JsonNullSkips`,
    `JsonNullRepeats`, `KeyExamples.JsonNullLosesRow`).
  - Rows equal in the database with a NaN in one key and a numeric of different scale in another are let through,
    and one of them is lost at a page boundary (`TieCheck.MissedTieSkips`, `KeyExamples.UndetectedTieLosesRow`).
  - Intervals of a year or more: the database counts a year as 360 days, the timedelta fetched has 365. Ties
    are missed and made up, and the cursor comes back elsewhere.
  - JSON `0` and `false`, `1` and `true`, JSON null beside SQL NULL, and JSON numbers that rounding makes equal
    are taken for tied though distinct.
  Over all other keys of the types modelled every forward walk is right (`TieCheck.PlainKeysAreReliable`).
- A downgrade undoes the legacy-column upgrade if and only if no column outside the `__tc_` namespace carries a
  rename record in its comment and no metadata already uses a name the upgrade hands out. Metadata left over
  under such a name is renamed along with the restored column (`LegacyColumns.RoundTripExactly`, `StaleExample`),
  and beside a row for the reserved column it stops the upgrade (`LegacyColumns.ClashesExactly`).
- Flattening a reconstructed object gives the original map if and only if the paths are prefix-free and none
  starts with a dot: a leading empty segment is lost (`ObjectPaths.FlattenRestoresExactly`, `LeadingDotExample`).
- `rejoin_future_on_cancel` drops a failure of the future that coincides with a cancellation;
  `rejoin_future_through_cancellation` keeps it as the cause (`FutureRejoin`).
- The deferred allocator does not look at rows that were there before it: a number at or below zero committed
  under the immediate one stays (`CaseNumbers.SafeFromThere`).

## Model

| member | source | states |
|---|---|---|
| `Ordering.BeforeTrichotomy` | tracecat/pagination.py:160-168 | for any number of keys in any mix of direction and null placement, exactly one of before, equal, after holds of two key tuples |
| `Ordering.BeforeTransitive` | tracecat/pagination.py:160-168 | the order of key tuples is transitive |
| `Ordering.ReversedIsConverse` | tracecat/pagination.py:170-187 | the reversed ordering is the exact converse on whole tuples |
| `Ordering.ReversedTwice` | tracecat/pagination.py:170-187 | reversing twice gives the ordering back |
| `OrderClauses.NormalizeOrder` | tracecat/pagination.py:196-265 | succeeds iff the clause has one direction, at most one null placement and a typed expression, in whatever nesting; then returns the key it denotes, nulls last by default |
| `OrderClauses.ClauseRoundTrip` | tracecat/pagination.py:160-168 | a key's own clause denotes that key and no other |
| `OrderClauses.DenotesOne` | tracecat/pagination.py:196-265 | no clause denotes two keys, and nulls are last by default |
| `SeekPredicate.StrictlyAfterMeaning` | tracecat/pagination.py:518-534 | the one-key comparison is True on exactly the cells after the value, nulls on either side included |
| `SeekPredicate.TruthTables` | tracecat/pagination.py:518-557 | AND and OR of the predicate follow SQL's truth tables |
| `SeekPredicate.BuildSeekPredicate` | tracecat/pagination.py:537-557 | the loop builds one branch per key, each guarded by equality on the keys before it, and the equality branch when inclusive |
| `SeekPredicate.SeekMeaning` | tracecat/pagination.py:518-557 | in three-valued logic the predicate is True on exactly the rows after the cursor tuple, or equal to it when inclusive |
| `PageQuery.ExecuteQuery` | tracecat/pagination.py:668-682 | filter by a True predicate, order, take n: distinct sorted rows, as many as asked for or there are, none left out that precedes one taken |
| `PageQuery.TopExists` | tracecat/pagination.py:668-682 | every such query has an answer |
| `Paginator.HasAdjacentTie` | tracecat/pagination.py:687-701 | reports a tie iff the test fires on two neighbouring rows of the window |
| `Paginator.ReverseInPlace` | tracecat/pagination.py:716-717 | reverses the page in place |
| `Paginator.PageRows` | tracecat/pagination.py:705-717 | the kept rows in canonical order for either direction |
| `Paginator.StepAgrees` | tracecat/pagination.py:677-755 | where the driver is exact and every row can be serialised, the code's request and the request on the database's own key values have the same outcomes |
| `Paginator.Paginate` | tracecat/pagination.py:592-783 | limit and ordering errors exactly when they apply, otherwise an outcome the step relation allows: a row that cannot be serialised, a detected tie, or the page |
| `Paginator.PageInFull` | tracecat/pagination.py:683-777 | a served page in full: its rows are the first of the window in canonical order, no neighbours tie, and which next and previous cursor it has, case by case, empty pages included |
| `Paginator.ErrorInFull` | tracecat/pagination.py:684-701 | a failed request in full: a row that cannot be serialised, or else two neighbours on which the test fires |
| `Walks.SelectedMeaning` | tracecat/pagination.py:668-676 | the query selects exactly the rows beyond the cursor in the direction of the cursor |
| `Walks.NoAdjacentTie` | tracecat/pagination.py:687-701 | comparing neighbours suffices: a sorted window without an adjacent tie is strictly sorted |
| `Walks.PageIsSorted` | tracecat/pagination.py:677-717 | with an exact driver a served page is strictly sorted rows of the table beyond the cursor |
| `Walks.PageLeavesNoGap` | tracecat/pagination.py:702-755 | rows not served are all strictly past the last one served, where the onward cursor points; without an onward cursor there are none |
| `Walks.WalkIsStrictlySorted` | tracecat/pagination.py:592-783 | over any walk in either direction, under any inserts and deletes and with an exact driver, keys strictly advance within and across pages and no row comes twice |
| `Walks.CompleteWalkMissesNothing` | tracecat/pagination.py:592-783 | with an exact driver a walk that ends without a cursor returned every row beyond its start that was present throughout |
| `Walks.ForwardWalk` | tracecat/pagination.py:607-610 | with an exact driver, from the first page: strictly increasing canonical order, and at the end each row present throughout exactly once |
| `Walks.StepExists` | tracecat/pagination.py:592-783 | every request has some outcome |
| `Walks.CompleteWalkHasNoTies` | tracecat/pagination.py:677-703 | with an exact driver two rows present throughout a completed walk never tie, whatever order ties came back in |
| `Walks.ErrorMeansTie` | tracecat/pagination.py:687-701 | with an exact driver the non-unique-ordering error is raised only on a table that holds tied rows |
| `Walks.WalkIsBounded` | tracecat/pagination.py:702-755 | on unchanging data a walk has at most one more page than the table has rows |
| `Walks.FullWalkFailsExactlyOnTies` | tracecat/pagination.py:677-703 | on a fixed table, with an exact driver, a run that has ended failed with the non-unique-ordering error iff two rows tie, and completed iff none do, after at most one request more than there are rows |
| `Walks.RunEnds` | tracecat/pagination.py:592-783 | from wherever a client stands on a fixed table, asking on leads to such an end |
| `Reliability.ReliableExactly` | tracecat/pagination.py:684-755 | every forward walk over tables from a domain is right - strictly increasing, nothing missed that was present throughout, no false complaint of ties - iff the tie test and the cursors are exact as far as the domain can tell |
| `Reliability.LostRow` | tracecat/pagination.py:702-755 | a row in query order after a page that its cursor does not reach is never returned |
| `Reliability.OutOfPlace` | tracecat/pagination.py:702-755 | a row the cursor reaches though it does not lie after the page is returned out of order |
| `Blocks.ListingExists` | tracecat/pagination.py:677-679 | a table without ties has a sorted listing |
| `Blocks.TopOfListing` | tracecat/pagination.py:677-682 | without ties a query has one answer, the front of the sorted listing |
| `Blocks.DeterminedPage` | tracecat/pagination.py:683-783 | with unique keys a request never fails and has exactly one page |
| `Blocks.ItemsAreSorted` | tracecat/pagination.py:716-717 | items are strictly increasing in canonical order however the page was reached |
| `Blocks.NextLiesAfter` | tracecat/pagination.py:719-755 | under any change of data the page behind a next cursor lies wholly after the page that offered it |
| `Blocks.PrevLiesBefore` | tracecat/pagination.py:719-755 | the page behind a previous cursor lies wholly before the page that offered it |
| `Blocks.ForwardPage` | tracecat/pagination.py:702-738 | a forward page is the first limit rows beyond the cursor, with a next cursor iff more follow |
| `Blocks.BackwardPage` | tracecat/pagination.py:658-717 | a backward page is the last limit rows before the cursor in canonical order, with a previous cursor iff an earlier row exists |
| `Blocks.BrowsingVisitsBlocks` | tracecat/pagination.py:702-755 | any mix of next and prev leads to the aligned block the moves count to, with a cursor on exactly the sides that have a neighbouring block |
| `Blocks.OffsetIsProduct` | tracecat/pagination.py:702-703 | block k starts k limits from the start |
| `Blocks.ThereAndBack` | tracecat/pagination.py:719-755 | returning to a position returns the identical page, cursors included |
| `Blocks.EmptyPage` | tracecat/pagination.py:756-777 | an empty page offers one inclusive cursor the other way if its own was exclusive, and none if inclusive |
| `Blocks.TwoEmptyPagesEnd` | tracecat/pagination.py:756-777 | two empty pages in a row end the walk, whatever was deleted meanwhile |
| `Blocks.RecoveredPage` | tracecat/pagination.py:756-777 | on unchanged data the recovery cursor returns the last (first) min(limit, n) rows with no cursor back toward the empty side |
| `Blocks.RecoveredWalkMissesNothing` | tracecat/pagination.py:756-777 | a completed walk from the recovery cursor returns every row that survived throughout |
| `TieCheck.FetchedCases` | tracecat/pagination.py:684-701 | how comparing the fetched values of one column departs from equality in the database |
| `TieCheck.IntervalsInFull` | tracecat/pagination.py:684-701 | an interval as compared in the database and as fetched |
| `TieCheck.RoundedIsFetched` | tracecat/pagination.py:393-427 | the document a cursor sends back is the one fetched |
| `TieCheck.WrittenCases` | tracecat/pagination.py:386-410 | how comparing their serialised values departs from it |
| `TieCheck.DetectionIsExact` | tracecat/pagination.py:687-701 | the test fires iff each pair of keys is equal in the database and not hidden, or merged, and no NaN meets a change of scale |
| `TieCheck.DetectionFaults` | tracecat/pagination.py:687-701 | exactly which tied rows are let through and exactly which distinct rows are reported |
| `TieCheck.FaultExamples` | tracecat/pagination.py:687-701 | pairs of either kind |
| `TieCheck.KeyIsFaithful` | tracecat/pagination.py:393-424 | a key comes back from its cursor as itself iff it is not an interval of a year or more, JSON null or a document that rounding changes |
| `TieCheck.TableIsExact` | tracecat/pagination.py:684-755 | the driver is exact on a table iff no two rows are missed or falsely tied and no key is lost in a cursor |
| `TieCheck.PlainKeysAreReliable` | tracecat/pagination.py:592-783 | over all other keys every forward walk is right, whatever is inserted and deleted |
| `TieCheck.MissedTieSkips` | tracecat/pagination.py:687-703 | a tie the test misses, at a page boundary: the walk completes without one of the rows |
| `TieCheck.JsonNullSkips` | tracecat/pagination.py:393-424 | rows with JSON null, nulls last: those behind the page boundary are never returned |
| `TieCheck.JsonNullRepeats` | tracecat/pagination.py:393-424 | nulls first: the row at the boundary is returned again |
| `KeyExamples.JsonNullLosesRow` | tracecat/pagination.py:393-424 | two rows, one a page, the second lost behind a JSON null |
| `KeyExamples.UndetectedTieLosesRow` | tracecat/pagination.py:687-703 | two tied rows, one a page, the second lost |
| `Base64Url.RoundTrip` | tracecat/pagination.py:367-375 | every byte string survives encoding with padding stripped and decoding with padding recomputed; the text holds no dot |
| `Base64Url.SymbolTable` | tracecat/pagination.py:367-375 | the alphabet in order |
| `Base64Url.SymbolsKnown` | tracecat/pagination.py:371-375 | the characters the decoder takes |
| `Base64Url.GroupBits` | tracecat/pagination.py:367-375 | a group of three bytes and its four sextets are the same 24 bits |
| `Base64Url.TestVectors` | tracecat/pagination.py:367-368 | the test vectors of RFC 4648, and one with the URL-safe symbols |
| `CursorCodec.SerializeValues` | tracecat/pagination.py:386-410 | the loop serialises value by value, null and non-finite floats apart, or fails |
| `CursorCodec.DeserializeValues` | tracecat/pagination.py:413-435 | rejects a wrong number of values, otherwise reads value by value |
| `CursorCodec.CellInFull` | tracecat/pagination.py:393-427 | the JSON of null and of non-finite floats, and what else counts |
| `FetchedValues.JsonInFull` | tracecat/pagination.py:405-406 | which values are JSON values |
| `CursorCodec.ValuesRoundTrip` | tracecat/pagination.py:386-435 | serialised values read back as they were iff every adapter is faithful to its value |
| `CursorCodec.CursorRoundTrip` | tracecat/pagination.py:438-505 | a token decodes under the same secret, fingerprint and ordering to its direction, boundary and values iff every adapter is faithful to its value |
| `CursorCodec.TokenInFull` | tracecat/pagination.py:438-465 | what is issued: payload of version 1 and the hash keyed with the secret over context and payload, at most 8192 characters |
| `CursorCodec.AcceptedExactly` | tracecat/pagination.py:468-505 | a token is accepted iff its second part is that hash, its version 1, its fingerprint the query's and its values readable, and stands for what its payload says |
| `CursorCodec.SignedRefused` | tracecat/pagination.py:491-505 | why a signed token is refused, in order: version, query, values |
| `CursorCodec.UnsignedRefused` | tracecat/pagination.py:475-489 | every other token is an invalid cursor |
| `CursorCodec.MarkIsExact` | tracecat/pagination.py:393-424 | the cursor made from a row comes back as the row's own key values in the database iff each key does: fetched as None only where it is NULL, and bound to the same value otherwise |
| `CursorCodec.SignedPayload` | tracecat/pagination.py:468-505 | which signed payloads are accepted and which error each other one gets, in order of precedence |
| `CursorCodec.OtherQueryIsRefused` | tracecat/pagination.py:496-500 | a token made for one query is a mismatch for every other |
| `CursorCodec.OtherKeyIsRefused` | tracecat/pagination.py:478-489 | a payload with anything but its keyed hash for a signature is invalid |
| `CursorCodec.OtherSecretIsRefused` | tracecat/pagination.py:378-383 | a token signed with one secret is invalid under every other with which the hash differs |
| `CursorCodec.OtherContextIsRefused` | tracecat/pagination.py:378-383 | likewise one signed in another context |
| `TokenWalks.PaginateTokens` | tracecat/pagination.py:632-783 | the whole request on string tokens: which error ends it, cursor errors exactly those of decoding, unserialisable rows wherever they stand in the window |
| `TokenWalks.TokensLead` | tracecat/pagination.py:719-777 | what both tokens of any answered page decode to, empty pages included: direction, boundary and bound values of the page's own next and previous cursor |
| `TokenWalks.TokenWalkIsWalk` | tracecat/pagination.py:650-656 | every walk over tokens is the image of a walk over cursors with the same tables, limits and items, whatever the adapters lose |
| `TokenWalks.ClientWalk` | tracecat/pagination.py:607-610 | wherever walks are reliable, what a client receives by handing back next cursors is strictly increasing and, at the end, has every row present throughout exactly once |
| `Fingerprint.SortedIsCanonical` | tracecat/pagination.py:324-328 | a list sorted by bytes is determined by its contents |
| `Fingerprint.LessByPosition` | tracecat/pagination.py:315-321 | byte order: a proper prefix first, else the smaller byte where two texts first differ |
| `Fingerprint.SortedAscends` | tracecat/pagination.py:324-328 | sorting is ascending |
| `Fingerprint.ArrayText` | tracecat/pagination.py:341-345 | JSON arrays as written |
| `Fingerprint.ArrayInjective` | tracecat/pagination.py:341-345 | different lists of elements give different arrays |
| `Fingerprint.OrderDoesNotMatter` | tracecat/pagination.py:324-328 | two `IN` lists give the same bytes if one rearranges the other, and the same serialised list iff their serialised values agree as multisets |
| `Fingerprint.SameBytesExactly` | tracecat/pagination.py:324-345 | the bytes of two `IN` lists agree iff their serialised values agree as multisets: rearranging changes nothing and any other change shows |
| `LegacyColumns.Fresh` | alembic/versions/b5fc4168fe22_apply_model_a_rls_to_dynamic_workspace_.py:86-97 | the name handed out is in the migrated namespace and not in use |
| `LegacyColumns.TakenCandidates` | alembic/versions/b5fc4168fe22_apply_model_a_rls_to_dynamic_workspace_.py:86-97 | pigeonhole: k candidates taken means at least k names in use, so the search ends |
| `LegacyColumns.NextLegacyName` | alembic/versions/b5fc4168fe22_apply_model_a_rls_to_dynamic_workspace_.py:86-97 | the loop returns the first candidate not in use |
| `LegacyColumns.NameInFull` | alembic/versions/b5fc4168fe22_apply_model_a_rls_to_dynamic_workspace_.py:81-97 | the name is `migrated_` for the two underscores, with the first free of `_1`, `_2` and so on where it is taken |
| `LegacyColumns.ParseMark` | alembic/versions/b5fc4168fe22_apply_model_a_rls_to_dynamic_workspace_.py:100-133 | a rename record reads back as the original name and comment |
| `LegacyColumns.RecordInFull` | alembic/versions/b5fc4168fe22_apply_model_a_rls_to_dynamic_workspace_.py:100-133 | the text of a record, what is taken for one, and the reserved names |
| `LegacyColumns.MovesAreGood` | alembic/versions/b5fc4168fe22_apply_model_a_rls_to_dynamic_workspace_.py:299-346 | the renames are injective, one per reserved column, and fresh even where suffixed names are taken |
| `LegacyColumns.DynamicTable.RenameColumn` | alembic/versions/b5fc4168fe22_apply_model_a_rls_to_dynamic_workspace_.py:310-360 | one turn of the loop |
| `LegacyColumns.DynamicTable.RenameLegacyInternalColumns` | alembic/versions/b5fc4168fe22_apply_model_a_rls_to_dynamic_workspace_.py:299-360 | columns, comments and metadata after the rename loop, or nothing changed where a metadata rename is refused |
| `LegacyColumns.DynamicTable.RestoreLegacyInternalColumns` | alembic/versions/b5fc4168fe22_apply_model_a_rls_to_dynamic_workspace_.py:363-426 | columns, comments and metadata after the restore loop, or the error it stops with |
| `LegacyColumns.DynamicTable.Upgrade` | alembic/versions/b5fc4168fe22_apply_model_a_rls_to_dynamic_workspace_.py:429-460 | renames, then adds the tenant column if absent |
| `LegacyColumns.DynamicTable.Downgrade` | alembic/versions/b5fc4168fe22_apply_model_a_rls_to_dynamic_workspace_.py:556-581 | drops the tenant column, then restores |
| `LegacyColumns.TenantComesAndGoes` | alembic/versions/b5fc4168fe22_apply_model_a_rls_to_dynamic_workspace_.py:446-460 | no reserved name is left after the renames, so the tenant column is always added and its drop removes nothing else |
| `LegacyColumns.MatchesAreMoves` | alembic/versions/b5fc4168fe22_apply_model_a_rls_to_dynamic_workspace_.py:373-385 | without foreign records, the records found are exactly the renames made |
| `LegacyColumns.RestoreAll` | alembic/versions/b5fc4168fe22_apply_model_a_rls_to_dynamic_workspace_.py:391-426 | undoing the renames in any order restores columns and metadata |
| `LegacyColumns.ClashesExactly` | alembic/versions/b5fc4168fe22_apply_model_a_rls_to_dynamic_workspace_.py:224-262 | the upgrade is refused iff metadata rows name both a reserved column and the name it is about to get |
| `LegacyColumns.RoundTripExactly` | alembic/versions/b5fc4168fe22_apply_model_a_rls_to_dynamic_workspace_.py:299-426 | downgrade after upgrade restores all names, comments and metadata iff there is no foreign record and no stale metadata name |
| `LegacyColumns.MatchingMetadataIsNotStale` | alembic/versions/b5fc4168fe22_apply_model_a_rls_to_dynamic_workspace_.py:224-296 | metadata that names only existing columns meets the second condition |
| `LegacyColumns.StaleExample` | alembic/versions/b5fc4168fe22_apply_model_a_rls_to_dynamic_workspace_.py:248-262 | a leftover metadata row that is not restored |
| `CaseNumbers.Tables.InsertCase` | alembic/versions/2792569cf359_defer_case_number_allocation.py:54-136 | counter, row and queued check after the insert trigger, or the error with nothing changed |
| `CaseNumbers.OtherStatements` | alembic/versions/2792569cf359_defer_case_number_allocation.py:102-136 | what renumbering, deleting and setting a counter do, and which rows await the check |
| `CaseNumbers.StatementsInOrder` | alembic/versions/2792569cf359_defer_case_number_allocation.py:38-136 | statements take effect one after the other and the first failure ends the transaction |
| `CaseNumbers.CommitInFull` | alembic/versions/2792569cf359_defer_case_number_allocation.py:38-136 | the checks at commit and the error of each |
| `CaseNumbers.TransactionInFull` | alembic/versions/2792569cf359_defer_case_number_allocation.py:102-136 | a transaction takes effect as a whole iff its outcome has no queued row without a positive number and no number twice in a workspace |
| `CaseNumbers.TransactionSafety` | alembic/versions/2792569cf359_defer_case_number_allocation.py:38-136 | whatever a transaction does, the state after it has positive numbers, unique per workspace |
| `CaseNumbers.HistorySafety` | alembic/versions/2792569cf359_defer_case_number_allocation.py:38-136 | the same over every history of transactions |
| `CaseNumbers.HistoryKeepsCover` | alembic/versions/2792569cf359_defer_case_number_allocation.py:59-97 | if positive numbers enter only through the trigger, counters stay at or above every number |
| `CaseNumbers.AllocationNeverCollides` | alembic/versions/2792569cf359_defer_case_number_allocation.py:59-71 | an allocated number is above every other of its workspace and never changes whether a commit succeeds |
| `CaseNumbers.AllocatorsAgree` | alembic/versions/2792569cf359_defer_case_number_allocation.py:139-170 | transactions of numbering inserts have the same effect under the deferred and the immediate allocator |
| `CaseNumbers.ImmediateInFull` | alembic/versions/2792569cf359_defer_case_number_allocation.py:139-170 | the immediate allocator: counter, number, and refusal of a number taken |
| `CaseNumbers.SentinelsDiffer` | alembic/versions/2792569cf359_defer_case_number_allocation.py:88-97 | a non-positive number is committed by the immediate allocator and never by the deferred one |
| `CaseNumbers.RankIsMonotone` | alembic/versions/13cfd6e83e36_scope_case_numbers_to_workspace.py:36-51 | renumbering keeps the old order |
| `CaseNumbers.RanksFillRange` | alembic/versions/13cfd6e83e36_scope_case_numbers_to_workspace.py:36-51 | the new numbers of a workspace are exactly 1..n |
| `CaseNumbers.CounterIsCount` | alembic/versions/13cfd6e83e36_scope_case_numbers_to_workspace.py:53-64 | the counter set from the largest number is the number of cases |
| `CaseNumbers.MigrationEstablishes` | alembic/versions/13cfd6e83e36_scope_case_numbers_to_workspace.py:36-69 | the migrated state is numbered and covered, in the old order |
| `CaseNumbers.ImmediateHistory` | alembic/versions/2792569cf359_defer_case_number_allocation.py:139-170 | under the immediate allocator numbers stay unique whatever is done, so a history ends numbered iff it leaves no number at zero or below |
| `CaseNumbers.NumberingHistory` | alembic/versions/2792569cf359_defer_case_number_allocation.py:139-170 | numbering inserts and deletes leave none and keep the counters above every number |
| `CaseNumbers.SafeFromThere` | alembic/versions/2792569cf359_defer_case_number_allocation.py:102-136 | every later history under the deferred allocator is safe iff the one before left no number at zero or below |
| `CaseNumbers.FromMigrationOn` | alembic/versions/13cfd6e83e36_scope_case_numbers_to_workspace.py:36-69 | from the renumbering on, through a numbering history under the immediate allocator and a trigger-only one under the deferred, both invariants hold and the allocators agree |
| `EntitlementCache.OrgService.HasEntitlement` | tracecat/service.py:175-188 | cache and reply after one call: move to end on a hit, evict the oldest and insert on a miss |
| `EntitlementCache.CacheIsLatest` | tracecat/service.py:158-188 | after any history the cached keys are the latest min(32, d) of the d distinct entitlements, by last use |
| `EntitlementCache.RepliesAreTrue` | tracecat/service.py:175-188 | while answers do not change, every reply is the true answer |
| `EntitlementCache.MissesExactly` | tracecat/service.py:177-184 | a call's reply depends on the database exactly when its entitlement is not among the latest 32 |
| `LoopDevices.SynchronizeEntry` | docker/loop-device-sync.cc:152-216 | one device: refused iff inconsistent or occupied by a foreign file, otherwise its exact node is there and counted |
| `LoopDevices.Synchronize` | docker/loop-device-sync.cc:193-219 | the loop alone succeeds iff nothing obstructs it; it ends past all entries or at the first obstructed, with exactly the missing nodes of the entries before made and counted |
| `LoopDevices.LoneRunIsSynchronize` | docker/loop-device-sync.cc:152-219 | a lone helper taking single steps without faults ends with the nodes, counters and result of the loop |
| `LoopDevices.ConcurrentSafety` | docker/loop-device-sync.cc:152-219 | over every interleaving and any faults: no node changes, added nodes are exact, created counters sum to the nodes added, finished helpers have every node and consistent counts |
| `LoopDevices.FaultsFail` | docker/loop-device-sync.cc:152-191 | a system call that fails for another reason fails the helper and changes nothing |
| `LoopDevices.EndsWellIffClean` | docker/loop-device-sync.cc:174-191 | without faults a helper fails iff an entry was inconsistent or a path foreign at the start; losing a race never fails it |
| `LoopDevices.TurnsRunOut` | docker/loop-device-sync.cc:193-219 | every turn of an unfinished helper brings its end nearer |
| `FutureRejoin.RejoinThroughCancellation` | tracecat/concurrency.py:39-65 | ends iff the future is done; which of result, failure, cancellation with and without cause it ends in, both ways |
| `FutureRejoin.DrainThroughCancellation` | tracecat/concurrency.py:14-27 | ends iff the future is done, whatever its outcome and however often cancelled |
| `FutureRejoin.RejoinOnCancel` | tracecat/concurrency.py:30-36 | the same endings, except that a failure behind a cancellation is dropped |
| `FutureRejoin.RepeatedCancellation` | tracecat/concurrency.py:47-53 | with any number of further cancellations while it waits, the helper ends as it would have ended |
| `ObjectPaths.SplitJoin` | tracecat/parse.py:13-19 | splitting a path and joining its segments gives the path; segments hold no dot |
| `ObjectPaths.InsertLeaves` | tracecat/parse.py:13-19 | insertion fails iff a leaf stands on the way, otherwise it overwrites exactly the leaves at or below the path and adds one |
| `ObjectPaths.ReconstructObj` | tracecat/parse.py:22-32 | the loop inserts entry by entry and stops at the first error |
| `ObjectPaths.ListsReconstructed` | tracecat/parse.py:28-31 | a list of one item counts as the item, any other list is kept |
| `ObjectPaths.TraversalNames` | tracecat/parse.py:35-49 | the traversal lists exactly the leaves under the paths their segments spell |
| `ObjectPaths.EntriesInOrder` | tracecat/parse.py:40-43 | dictionaries are traversed in order, keys joined by a dot |
| `ObjectPaths.ItemsInOrder` | tracecat/parse.py:44-47 | list items stand under their places in brackets |
| `ObjectPaths.FlattenRestoresExactly` | tracecat/parse.py:13-49 | flattening the reconstructed object gives the original pairs iff the paths are prefix-free and none starts with a dot, in any insertion order |
| `ObjectPaths.LeadingDotExample` | tracecat/parse.py:35-49 | a path with a leading dot comes back without it |
| `CatalogBackfill.SeedPlatformCatalog` | alembic/versions/96470fdcc686_v2_backfill_catalog_and_access.py:278-314 | upserts every catalog entry |
| `CatalogBackfill.SeedSeeds` | alembic/versions/96470fdcc686_v2_backfill_catalog_and_access.py:278-314 | afterwards every entry has a platform row with its metadata |
| `CatalogBackfill.MigrateCloudProviders` | alembic/versions/96470fdcc686_v2_backfill_catalog_and_access.py:677-678 | the loop over cloud providers |
| `CatalogBackfill.CustomSettles` | alembic/versions/96470fdcc686_v2_backfill_catalog_and_access.py:440-526 | afterwards the organization has one custom provider with a granted catalog row |
| `CatalogBackfill.CloudsSettle` | alembic/versions/96470fdcc686_v2_backfill_catalog_and_access.py:380-437 | afterwards every cloud credential has a granted catalog row |
| `CatalogBackfill.DirectsSettle` | alembic/versions/96470fdcc686_v2_backfill_catalog_and_access.py:365-377 | afterwards every platform row of a direct provider with a credential is granted |
| `CatalogBackfill.OrgSettles` | alembic/versions/96470fdcc686_v2_backfill_catalog_and_access.py:670-691 | the steps for an organization leave nothing to do for it |
| `CatalogBackfill.OthersKeepSettled` | alembic/versions/96470fdcc686_v2_backfill_catalog_and_access.py:193-207 | the steps for other organizations keep it so |
| `CatalogBackfill.RunTwice` | alembic/versions/96470fdcc686_v2_backfill_catalog_and_access.py:193-207 | a second run changes nothing, in whatever order it iterates and however it breaks ties |
| `CatalogBackfill.LinksAreVisible` | alembic/versions/96470fdcc686_v2_backfill_catalog_and_access.py:529-595 | after a run each preset and version is unchanged if it was linked or nothing matches, and otherwise linked to the one row with its id: a matching platform row if there is one, else a row of its own organization |
| `CatalogEffect.BackfillOrgEffect` | alembic/versions/96470fdcc686_v2_backfill_catalog_and_access.py:670-691 | what the steps for one organization do to each table: rows, contents, grants, providers and default |
| `CatalogEffect.RunInFull` | alembic/versions/96470fdcc686_v2_backfill_catalog_and_access.py:193-207 | what a run does to each table: exactly the rows asked for are new, with the credentials in them; exactly the grants due are there; one custom provider each; each default and preset set exactly where a visible row fits, to the row it resolves to |
| `CatalogEffect.RunSucceeds` | alembic/versions/96470fdcc686_v2_backfill_catalog_and_access.py:193-207 | a run succeeds iff the entries are distinct, no secret it asks for is stored twice and no organization with a custom credential has several providers |
| `CatalogEffect.RunFails` | alembic/versions/96470fdcc686_v2_backfill_catalog_and_access.py:193-207 | why a run fails |
| `Base62.Encode` | tracecat/base62.py:8-31 | the digits of the number as text; an error on negative input |
| `Base62.Decode` | tracecat/base62.py:34-52 | the value of the digits; an error iff a character is invalid |
| `Base62.CharTable` | tracecat/base62.py:1-5 | the characters in order |
| `Base62.ReadAndWritten` | tracecat/base62.py:24-52 | reading and writing, character by character |
| `Base62.DecodeEncode` | tracecat/base62.py:8-52 | decoding undoes encoding for every natural number |
| `Base62.EncodeDecode` | tracecat/base62.py:8-52 | encoding undoes decoding on exactly the non-empty valid strings without a leading zero, and "0" |
| `Base62.EncodedLength` | tracecat/base62.py:27-31 | the encoding of a positive n has the least length k with n < 62^k |

## Left out

- SQLAlchemy statement compilation, WHERE versus HAVING, `row_factory` and the checks on the statement object: calls into code outside this model; a row carries the values of its ordering expressions.
- SHA-256, HMAC, JSON text, pydantic adapters and the conversions of the database driver: parameters with a named contract; no cryptographic strength is claimed. An interval is fetched as the driver does it, with years of 365 and months of 30 days.
- Simplifications SQLAlchemy makes to the built predicate (dropping false branches, single-element AND/OR): they do not change its truth value.
- Column types whose own equality Python refines or coarsens in other ways (times with a time zone, text under a nondeterministic collation): `TieCheck` treats the types it does not name as equal only to themselves; `Reliability` covers them through the driver.
- TokenWalks.ClientWalk: that a walk over cursors which goes wrong also goes wrong over tokens is not stated, because a token can be refused for its length.
- Rows whose ordering values change between requests: a row is its item and its keys, so such a change is a delete and an insert.
- The older `Cursor*` classes and row-count estimates of tracecat/pagination.py: legacy API and database statistics.
- Identifier truncation, quoting, row-level-security policies, the backfill of tenant values and the resolution of a table's metadata id (legacy-column migration): plain DDL or lookups; the model takes the metadata of one table as given, and its statements hold for every order of the restored columns.
- LegacyColumns.DynamicTable.Downgrade: takes the sorted list of records as an argument instead of sorting it.
- Postgres locking, savepoints and index building (case numbers): a transaction is an atomic step with checks at commit; deleting workspaces and moving a case between workspaces are not modelled.
- Application code that later assigns deferred case numbers: represented only as arbitrary number and counter updates.
- EntitlementCache.OrgService.HasEntitlement: calls are sequential; interleaving two calls of one service at the await is not modelled.
- Parsing of /sys/block names and `dev` files, and the filesystem UID guard (loop devices): an entry carries the parsed numbers, or none.
- KeyboardInterrupt and coroutine closing (future helpers): awaits end in a cancellation or in the future's own outcome.
- ObjectPaths.ReconstructObj: the nested dictionaries are values, so sharing and partial updates left behind by an error are not captured; separators other than the dot and lists as leaves are outside the round trip.
- CatalogBackfill.RunTwice: tables are values keyed by their unique index; timestamps, logging and reading the catalog file are not modelled.
- Doc generators, sanitization, ssh, network and the remaining schema migrations: text rendering, subprocesses or plain DDL.
