# Steam game catalogue sync — a verified Dafny model

This project models the core of `sggc-aws-lambda`, a scheduled job that keeps a
stored catalogue of Steam games in step with Steam's full app list. There are
two generations of the job:

- **The DynamoDB job (`sggc` packages).**
  - The lambda scans the `Game` table, then fetches the app list from Steam. Any failure there ends the run with exit status 1.
  - It keeps the apps whose appid is not stored yet (compared exactly), gives each of them a fresh `<uuid>-<epochMillis>` id, and writes them.
  - The write goes in batches of at most 25. It resubmits whatever the store reports as unprocessed until nothing is left.
  - Around the lambda:
    - `SteamRequestSender` builds the requests, masks the API key before a URI is logged, and accepts only 200 responses that have a body.
    - `SteamRequestSender` turns an app-details response into a category set. When Steam has no details, that set is {MULTIPLAYER}.
    - `GameService` classifies a game as multiplayer, not multiplayer, or undetermined (null).
  - `Result` is the service-result envelope.
- **The Mongo job.**
  - `MongoGameCollectionUpdater` removes the stored games from the parsed app list in place, using `ArrayList.removeAll` with case-insensitive appid equality.
  - It inserts what is left, if anything.

How Java is represented:

- A Java `null` is `Option`.
- A call that may throw returns `Try` (`Ok(value)` or `Threw(exception)`).
- Classes whose fields the code mutates in place are Dafny classes:
  - the DynamoDB client;
  - the id supplier;
  - the Mongo games, their collection and the parsed list.
- Value records are datatypes.
- HTTP exchanges, parsed JSON, the secret store and the database are inputs or oracles.

The DynamoDB batch writer is proved against its specification:

- every call carries at most 25 items;
- chunks are consecutive slices of the iteration order, ceil(N/25) of them;
- each retry resubmits exactly the previous reply;
- chunks are drained one after another;
- every item ends up accepted.

The lambda's `handleRequest` is a method whose postcondition states each terminal state:

- on a completed run, what was written;
- that the written games carry fresh, distinct ids;
- that their appids were not stored before;
- that a rerun over the same app list would find nothing new.

## Model

| member | source | states |
|---|---|---|
| JavaStrings.IndexOf | src/main/java/sggc/infrastructure/SteamRequestSender.java:191 | `indexOf` gives the first index where the pattern occurs, or -1 when it occurs nowhere |
| JavaStrings.Contains | src/main/java/sggc/infrastructure/SteamRequestSender.java:210 | `contains` is true exactly when the pattern occurs somewhere |
| JavaStrings.ReplaceEmptyEnds | src/main/java/sggc/infrastructure/SteamRequestSender.java:196 | `replaceAll("", rep)` starts and ends with `rep`, is at least \|s\| + \|rep\| long, and puts the first input character right after the first `rep` |
| JavaStrings.ReplaceEmptyLength | src/main/java/sggc/infrastructure/SteamRequestSender.java:196 | `replaceAll("", rep)` keeps every input character and inserts `rep` at all \|s\|+1 places: its length is \|s\| + (\|s\|+1)·\|rep\| |
| JavaStrings.ReplaceLiteralRemovesPattern | src/main/java/sggc/infrastructure/SteamRequestSender.java:196 | after replacing a nonempty literal pattern with text sharing no character with it, the pattern no longer occurs |
| JavaStrings.ReplaceLiteralKeepsCleanText | src/main/java/sggc/infrastructure/SteamRequestSender.java:196 | text in which the pattern does not occur is returned unchanged |
| JavaStrings.ReplaceLiteralSkipsCleanPrefix | src/main/java/sggc/infrastructure/SteamRequestSender.java:196 | a prefix where no match starts is copied and the scan resumes after it |
| JavaStrings.ReplaceOnlyOccurrence | src/main/java/sggc/infrastructure/SteamRequestSender.java:196 | a pattern occurring exactly once is replaced there and nowhere else |
| JavaStrings.ReplaceTwoOccurrences | src/main/java/sggc/infrastructure/SteamRequestSender.java:196 | a pattern occurring exactly twice, the second time at the end, is replaced at both places |
| GameCategories.NumericId | src/main/java/sggc/models/steam/GameCategory.java:16-26 | each enum constant's numeric id is 1 or 2 |
| GameCategories.DecodeWireName | src/main/java/sggc/models/steam/GameCategory.java:17-20 | a decoded wire id is exactly the serialized name of the constant it gives back |
| GameCategories.CategoryCodecRoundTrip | src/main/java/sggc/models/steam/GameCategory.java:16-26 | decoding a constant's wire name gives it back; numeric ids are distinct; "1" is MULTIPLAYER (id 1) and "2" is SINGLE_PLAYER (id 2) |
| SggcModels.EqualsIsAppidEquality | src/main/java/sggc/models/Game.java:27-33 | two games are equal iff both are games with `Objects.equals` appids (case-sensitive, null equal to null); id, name and multiplayer play no part; null or another class is never equal |
| SggcModels.EqualsIsEquivalence | src/main/java/sggc/models/Game.java:29-32 | `equals` is reflexive, symmetric and transitive |
| SggcModels.WrapInt | src/main/java/sggc/models/Game.java:37 | Java `int` arithmetic: the result is in the 32-bit range and congruent to the exact value modulo 2^32 |
| SggcModels.HashCode | src/main/java/sggc/models/Game.java:35-38 | `Objects.hash(appid)` is a 32-bit value |
| SggcModels.EqualGamesHashAlike | src/main/java/sggc/models/Game.java:35-38 | equal games have equal hash codes |
| ServiceResult.SuccessResult | src/main/java/sggc/models/service/SuccessResult.java:5-7 | a success result has `success` true, carries the given data, and its error list is null |
| ServiceResult.ErrorResult | src/main/java/sggc/models/service/ErrorResult.java:12-14 | a failure result has `success` false, null data and exactly the given error list |
| ServiceResult.ConcreteResultsComeFromConstructors | src/main/java/sggc/models/service/Result.java:10-19 | the results the two concrete classes can build are exactly the concrete ones, and `success` tells which class built one |
| SteamRequestSender.FindCut | src/main/java/sggc/infrastructure/SteamRequestSender.java:191-195 | there is no cut iff the URI has no "key"; otherwise the cut starts at the first "key" (none occurs before it), its end is -1 or the offset of the first `&` from that "key" on, and no `&` lies between the key and the end (or the end of the URI when the end is -1) |
| SteamRequestSender.MaskSteamApiKey | src/main/java/sggc/infrastructure/SteamRequestSender.java:189-200 | as written: a URI with no "key" comes back unchanged; the call throws `StringIndexOutOfBoundsException` exactly when the first `&` after "key" is missing or comes before offset 4 |
| SteamRequestSender.MaskSteamApiKeyFixed | src/main/java/sggc/infrastructure/SteamRequestSender.java:194-195 | corrected masking: with no `&` after the key, the value runs to the end of the URI and the call succeeds; a URI with no "key" is unchanged |
| SteamRequestSender.MaskedValueDisappears | src/main/java/sggc/infrastructure/SteamRequestSender.java:196 | a nonempty literal key value no longer occurs once replaced by the 13-asterisk mask |
| SteamRequestSender.SanitizeRequestUri | src/main/java/sggc/infrastructure/SteamRequestSender.java:208-214 | the URI is masked only when it contains "key"; otherwise it is returned unchanged |
| SteamRequestSender.SanitizeRequestUriFixed | src/main/java/sggc/infrastructure/SteamRequestSender.java:208-214 | the same guard over the corrected masking: unchanged without "key", the fixed masking with it |
| SteamRequestSender.AppListUriCut | src/main/java/sggc/infrastructure/SteamRequestSender.java:224-226 | in a list-endpoint URI, the first "key" is the query parameter's name and no `&` follows it |
| SteamRequestSender.AppListUriMaskingThrows | src/main/java/sggc/infrastructure/SteamRequestSender.java:69 | as written, sanitizing every list-endpoint URI throws `StringIndexOutOfBoundsException` |
| SteamRequestSender.AppListUriMaskingFixed | src/main/java/sggc/infrastructure/SteamRequestSender.java:69 | with the correction, sanitizing a list-endpoint URI succeeds and a nonempty key no longer appears in the logged text |
| SteamRequestSender.KeyBeforeAmpersandCut | src/main/java/sggc/infrastructure/SteamRequestSender.java:191-195 | for `…key=V&…`, the cut starts at the first "key" and ends at the `&`, and the value cut out is exactly `V` |
| SteamRequestSender.KeyBeforeAmpersandIsMasked | src/main/java/sggc/infrastructure/SteamRequestSender.java:191-196 | when another parameter follows the key, masking succeeds, the nonempty value no longer occurs, and the mask does |
| SteamRequestSender.KeyOnlyValueIsMaskedInPlace | src/main/java/sggc/infrastructure/SteamRequestSender.java:191-196 | when the key value occurs only where the key holds it, the masked URI is the URI with exactly that value replaced by the mask; every other parameter is kept |
| SteamRequestSender.RepeatedValueIsMaskedTwice | src/main/java/sggc/infrastructure/SteamRequestSender.java:196 | `replaceAll` also masks an unrelated last parameter holding the same text as the key: for `key=V&name=V` both values become the mask |
| SteamRequestSender.EmptyKeyValueSpreadsMask | src/main/java/sggc/infrastructure/SteamRequestSender.java:194-196 | an empty key value (`key=&`) makes the masking `replaceAll("", mask)`: the result starts with the mask and is \|uri\| + (\|uri\|+1)·13 long |
| SteamRequestSender.MaskOccursAfterReplace | src/main/java/sggc/infrastructure/SteamRequestSender.java:196 | replacing a value that occurs leaves at least one mask in the result |
| SteamRequestSender.AcceptResponse | src/main/java/sggc/infrastructure/SteamRequestSender.java:71-79 | a response is accepted iff its status is 200 and a body is present; a non-200 status gives `ApiException` with the non-200 message; a missing body gives the no-body message |
| SteamRequestSender.RequestAllSteamAppsFromSteamApi | src/main/java/sggc/infrastructure/SteamRequestSender.java:58-83 | a failed key lookup gives `ApiException` (URI construction); a failed sanitizing rethrows its exception; an exchange exception escapes unchanged (no catch); a non-200 status and a 200 without body give their two `ApiException`s; a malformed body gives `JsonSyntaxException`; a well-formed body gives its parsed value, and only such a response gives a value |
| SteamRequestSender.ParseGameDetailsList | src/main/java/sggc/infrastructure/SteamRequestSender.java:131-152 | malformed JSON gives `IOException`; `success` false under the first root key gives exactly {MULTIPLAYER}; `success` true with `data` gives that data; an empty root throws `NoSuchElementException`, a missing `success` and a missing `data` after `success` true throw `NullPointerException`; a result needs a parsed body with a `success` flag under the first key; it never throws `ApiException` |
| SteamRequestSender.RequestAppDetails | src/main/java/sggc/infrastructure/SteamRequestSender.java:93-122 | an IOException from the exchange becomes `ApiException`, and any other exception escapes unchanged; a non-200 status or missing body gives `ApiException`; otherwise the result is the parse of the body |
| GameService.ScanForMultiplayer | src/main/java/sggc/services/GameService.java:45-50 | the loop with early return finds MULTIPLAYER iff some category has that id, in whatever order the set is visited |
| GameService.IsGameMultiplayer | src/main/java/sggc/services/GameService.java:35-53 | `ApiException`/`IOException` give null; other exceptions escape; null categories throw on the loop; otherwise true iff some category is MULTIPLAYER, and false for an empty set |
| GameService.UnsuccessfulDetailsClassifyAsMultiplayer | src/main/java/sggc/services/GameService.java:39-48 | a detail response with `success` false classifies the game as multiplayer |
| GameService.ClassificationFollowsWireIds | src/main/java/sggc/services/GameService.java:44-52 | for decoded category ids, the result is true iff id "1" is present; only "2", unknown ids or no ids give false |
| GameService.FailedRequestIsUndetermined | src/main/java/sggc/services/GameService.java:38-43 | a failed exchange, or a non-200 response, whatever its status, leaves the classification null |
| GameService.UncheckedExchangeFailureEscapes | src/main/java/sggc/services/GameService.java:38-43 | an exchange exception that is neither ApiException nor IOException escapes `isGameMultiplayer` unchanged (SteamRequestSender.java:117 converts only IOException) |
| GameService.RequestAllGamesFromSteam | src/main/java/sggc/services/GameService.java:60-69 | `IOException`/`ApiException` give null; other exceptions escape; a null response or applist throws `NullPointerException`; a response with an applist gives exactly its `apps`, and a non-null result comes only from such a response |
| EnhancedDynamoDb.EnhancedClient.BatchWriteItem | src/main/java/sggc/utils/DynamoDbUtil.java:72 | the reply is a sub-multiset of the puts, and strictly smaller for a nonempty batch; the call is recorded; the store accepts exactly the puts not returned |
| DynamoDbUtil.Partition | src/main/java/sggc/utils/DynamoDbUtil.java:46 | the chunks concatenate back to the items; each has 1 to 25 items; all but the last are full; there are ceil(N/25) of them |
| DynamoDbUtil.PartitionSlice | src/main/java/sggc/utils/DynamoDbUtil.java:46 | chunk k is the slice of the items from 25·k, 25 long or up to the end |
| DynamoDbUtil.SubmitBatchWrite | src/main/java/sggc/utils/DynamoDbUtil.java:67-73 | one call whose single write batch, for the one table, holds every item in order; it returns the store's sub-list reply |
| DynamoDbUtil.WriteChunk | src/main/java/sggc/utils/DynamoDbUtil.java:48-52 | the calls for a chunk are the chunk first, then each time exactly the previous reply, ending on an empty reply; every chunk item is accepted |
| DynamoDbUtil.BatchWrite | src/main/java/sggc/utils/DynamoDbUtil.java:45-54 | one drained retry chain per chunk, in chunk order, appended to the call history in that order; the store accepts exactly the items |
| DynamoDbUtil.RetriesNeverGrow | src/main/java/sggc/utils/DynamoDbUtil.java:49-52 | no call for a chunk sends more than the chunk, and no retry more than the call before it |
| DynamoDbUtil.EverySubmissionWithinLimit | src/main/java/sggc/utils/DynamoDbUtil.java:46-52 | every call, first or retry, carries at most 25 items |
| DynamoDbUtil.BatchWriteShape | src/main/java/sggc/utils/DynamoDbUtil.java:46-48 | ceil(N/25) chunks are started; there are no calls at all iff there are no items; every call holds at most 25 items |
| DynamoDbBatchWriter.DynamoDbBatchWriter.BatchWrite | src/main/java/sggc/infrasturcture/DynamoDbBatchWriter.java:31-40 | the instance-method duplicate: the same chunking, retry chains, call order and full acceptance |
| UpdateGameCollectionLambda.NonPersistedIsAppidDifference | src/main/java/sggc/lambdas/UpdateGameCollectionLambda.java:62-64 | a game is in the diff iff it is in `allGames` and its appid (exact, null equal to null) is no persisted game's appid |
| UpdateGameCollectionLambda.NonPersistedBounds | src/main/java/sggc/lambdas/UpdateGameCollectionLambda.java:63 | the diff is a subset of `allGames`; nothing persisted gives all games; no games gives an empty diff |
| UpdateGameCollectionLambda.NonPersistedSplitsAll | src/main/java/sggc/lambdas/UpdateGameCollectionLambda.java:63 | every game is either new or shares its appid with a persisted one, never both |
| UpdateGameCollectionLambda.NonPersistedIdempotent | src/main/java/sggc/lambdas/UpdateGameCollectionLambda.java:63 | filtering the diff again against the same persisted set changes nothing |
| UpdateGameCollectionLambda.DiffIsCaseSensitive | src/main/java/sggc/lambdas/UpdateGameCollectionLambda.java:63 | a stored "AB" does not filter out a Steam "ab" |
| UpdateGameCollectionLambda.NonPersistedIsGameSet | src/main/java/sggc/lambdas/UpdateGameCollectionLambda.java:63 | the diff of a `HashSet<Game>` still holds one game per appid |
| UpdateGameCollectionLambda.SecondRunFindsNothing | src/main/java/sggc/lambdas/UpdateGameCollectionLambda.java:47-50 | once games with the new games' appids are stored, whatever their ids, the diff over the same app list is empty |
| UpdateGameCollectionLambda.RequestAllGamesFromSteam | src/main/java/sggc/lambdas/UpdateGameCollectionLambda.java:73-80 | exceptions of the call pass through; a null parsed response gives `IllegalArgumentException` with its message; a null applist gives `NullPointerException`; the result is the applist's apps exactly when both are present |
| UpdateGameCollectionLambda.DecimalString | src/main/java/sggc/lambdas/UpdateGameCollectionLambda.java:48 | `Long.toString` of the epoch millis is a nonempty string of decimal digits |
| UpdateGameCollectionLambda.DecimalStringRoundTrip | src/main/java/sggc/lambdas/UpdateGameCollectionLambda.java:48 | the millis written into an id read back as the same number |
| UpdateGameCollectionLambda.IdSupplier.NextId | src/main/java/sggc/lambdas/UpdateGameCollectionLambda.java:48 | each id is `uuid + "-" + millis`; it was never issued before; the clock does not go back |
| UpdateGameCollectionLambda.IterationOrder | src/main/java/sggc/lambdas/UpdateGameCollectionLambda.java:48 | a set's iteration visits each element exactly once |
| UpdateGameCollectionLambda.AssignIds | src/main/java/sggc/lambdas/UpdateGameCollectionLambda.java:48 | every new game, and only those, gets its own next id; ids are pairwise distinct and never issued before; appid, name and multiplayer are unchanged |
| UpdateGameCollectionLambda.Scan | src/main/java/sggc/lambdas/UpdateGameCollectionLambda.java:36 | the scanned set holds exactly the items stored in the table |
| UpdateGameCollectionLambda.WrittenGamesAreNew | src/main/java/sggc/lambdas/UpdateGameCollectionLambda.java:47-50 | written games carry no persisted appid, and storing them leaves nothing new for the next run |
| UpdateGameCollectionLambda.WrittenAppidsDistinct | src/main/java/sggc/lambdas/UpdateGameCollectionLambda.java:47-50 | the games written in one run have pairwise distinct appids |
| UpdateGameCollectionLambda.HandleRequest | src/main/java/sggc/lambdas/UpdateGameCollectionLambda.java:29-52 | a fetch exception exits with status 1 and changes nothing; a null app set crashes with `NullPointerException` and changes nothing; otherwise exactly the games the diff against the scanned table finds are written, once each, with fresh pairwise-distinct ids and appids not in the table, through drained batches of the `Game` table, after which the same diff finds nothing |
| MongoModels.EqualsIgnoreCaseIsEquivalence | src/main/java/models/Game.java:25 | `equalsIgnoreCase` is reflexive, symmetric and transitive, and false against null |
| MongoModels.CaseIsIgnored | src/main/java/models/Game.java:25 | "AB" and "ab" differ yet compare equal ignoring case |
| MongoModels.DigitAppidsCompareExactly | src/main/java/models/Game.java:25 | on numeric appids, ignoring case is exact equality |
| MongoModels.Game.Equals | src/main/java/models/Game.java:17-26 | the same reference is equal, even with a null appid. Null and other classes (including the nested app-list game) are not. A null appid against another game throws `NullPointerException`. Otherwise the appids are compared ignoring case |
| MongoModels.AppListGame.Equals | src/main/java/models/GetAppListResponse.java:28-38 | the nested class's `equals`: the same guards, the same null dereference, the same case-insensitive comparison |
| MongoModels.StoredEqualsIgnoresOtherFields | src/main/java/models/Game.java:11-25 | two games with the same appid compare alike against any other game, whatever their id, name or multiplayer flag |
| MongoModels.StoredEqualsIsEquivalence | src/main/java/models/Game.java:19-25 | between games with appids, `equals` is symmetric and transitive; a stored game and a nested app-list game are never equal |
| MongoModels.ListedEqualsIsEquivalence | src/main/java/models/GetAppListResponse.java:29-37 | between nested games with appids, `equals` is symmetric and transitive |
| MongoGameCollectionUpdater.GamesCollection.Find | src/main/java/utils/MongoGameCollectionUpdater.java:17 | the stored games read are exactly the collection's documents; nothing changes |
| MongoGameCollectionUpdater.GamesCollection.InsertMany | src/main/java/utils/MongoGameCollectionUpdater.java:25 | the games are appended to the documents |
| MongoGameCollectionUpdater.ContainsResult | src/main/java/utils/MongoGameCollectionUpdater.java:21 | `contains` walks the stored list with `equals`; the only exception it can raise is `NullPointerException` |
| MongoGameCollectionUpdater.ContainsMeaning | src/main/java/utils/MongoGameCollectionUpdater.java:21 | with an appid, `contains` never throws and is true iff the game is stored or matches a stored appid ignoring case. With a null appid it is true only when the first stored game is the game itself, and throws when that first game is another object |
| MongoGameCollectionUpdater.BatchRemove | src/main/java/utils/MongoGameCollectionUpdater.java:21 | `removeAll` never lengthens the list, and the only exception it lets through is `NullPointerException` |
| MongoGameCollectionUpdater.RemovalKeepsOrder | src/main/java/utils/MongoGameCollectionUpdater.java:21 | the surviving elements keep their original relative order |
| MongoGameCollectionUpdater.RemovalFilters | src/main/java/utils/MongoGameCollectionUpdater.java:21 | when `removeAll` completes, an element stays iff `contains` answered false for it |
| MongoGameCollectionUpdater.RemovalStep | src/main/java/utils/MongoGameCollectionUpdater.java:21 | one element answered by `contains` is dropped or kept, and the rest is processed the same way |
| MongoGameCollectionUpdater.InterruptedRemovalKeepsRest | src/main/java/utils/MongoGameCollectionUpdater.java:21 | if `contains` throws at element k, the list becomes the survivors of the first k elements followed by elements k onward, and the exception is `NullPointerException` |
| MongoGameCollectionUpdater.NothingStoredRemains | src/main/java/utils/MongoGameCollectionUpdater.java:21 | after a completed `removeAll`, no element left is a stored game or matches a stored appid ignoring case; a null-appid element survives only when nothing is stored |
| MongoGameCollectionUpdater.GameList.RemoveAll | src/main/java/utils/MongoGameCollectionUpdater.java:21 | the list is updated in place to what `removeAll` leaves; an interruption is rethrown; otherwise it reports whether anything was removed |
| MongoGameCollectionUpdater.RefreshGamesCollection | src/main/java/utils/MongoGameCollectionUpdater.java:16-31 | a null response throws `NoSuchElementException` with nothing inserted. A null applist or app list throws `NullPointerException`. The app list is filtered in place; an exception of the filter propagates with nothing inserted. An emptied list inserts nothing; otherwise exactly the filtered list is appended. Stored documents are otherwise untouched |

## Left out

- **HTTP and JSON.**
  - The HTTP exchange, Gson/Jackson parsing and `URIBuilder` are outside the model. A response is an input: its status code and its body, already parsed or marked malformed.
  - Percent-encoding is not modelled. The API key is taken as `URIBuilder` emits it, so it never holds `&`.
  - The `getContent().toString()` misuse at SteamRequestSender.java:73 concerns streams, and is not modelled.
- **Secrets and client factories.** Secret retrieval and the AWS/Mongo client factories and connections are foreign libraries. A failed key lookup is an input.
- **Logging.** Logging is left out, except for the argument of the `log.debug` call at SteamRequestSender.java:69. Java evaluates that argument, the sanitized URI, before the call, so it can throw.
- **`System.exit(1)`.** It is the terminal state `Exited(1)`.
- **Regular expressions.** `replaceAll` is modelled for patterns without regex metacharacters, where it matches literally. `SteamRequestSender.MaskSteamApiKey` and its callers require the cut-out key value to be such a pattern. A value with metacharacters is not modelled.
- **Set iteration order.** Java `HashSet` iteration order is left open:
  - `GameService.ScanForMultiplayer` picks any element next;
  - `UpdateGameCollectionLambda.IterationOrder` returns some order of the set.
- **Item identity in the store.** `EnhancedDynamoDb.EnhancedClient` keeps the accepted puts as a multiset. DynamoDB replaces an item whose primary key is already stored, and it rejects a batch that holds the same key twice. Neither is modelled. `HandleRequest` writes games with fresh, distinct ids (`AssignIds`), so neither case arises on its path.
- **Store progress.** `EnhancedDynamoDb.EnhancedClient.BatchWriteItem` assumes that the store accepts at least one item of every nonempty batch. The source retries forever when the store never makes progress; that behaviour, and therefore that path, is not modelled.
- **UUIDs and the clock.** `UpdateGameCollectionLambda.IdSupplier.NextId` stands for `UUID.randomUUID()` and the wall clock.
  - It states only what the job relies on: the id format, an id never repeats, and the clock never goes back. The specific UUID and millisecond values are not modelled.
  - Freshness is what a random UUID gives with overwhelming probability. The model gets it by choosing a UUID longer than any id issued before.
- **The table scan.** `UpdateGameCollectionLambda.Scan` returns the stored items as a set of values. `Collectors.toSet` would also drop items that share an appid. The diff reads only appids (see `NonPersistedIsAppidDifference`), so that de-duplication does not change the result.
- **Missing `sggc` classes.** `sggc.models.GameCategory` and `sggc.models.GetAppListResponse` are imported by `SteamRequestSender`, `GameService` and the lambda, but they are not part of this model. Their `sggc.models.steam` namesakes are used instead. `sggc.models.GameData` holds the same single `categories` field as `sggc.models.steam.GameData`, and one `GameCategories.GameData` stands for both.
- **Mongo type mismatch.** `MongoGameCollectionUpdater` declares the app list as `List<models.Game>`, but `GetAppListResponse.getApps()` returns the nested `GetAppListResponse.Game`. The code as given does not compile.
  - The model takes the list elements to be `models.Game`, as declared.
  - `MongoModels.StoredEqualsIsEquivalence` records that objects of the two classes never compare equal.
- **Mongo lists.** Null elements inside the app list and exceptions from the Mongo driver are not modelled.
- **`MongoModels.EqualsIgnoreCase`.** It folds ASCII letters only; Java also folds non-ASCII letters. Steam appids are decimal digits, where the two agree (`DigitAppidsCompareExactly`).
- **`SteamRequestSender.RequestAllSteamAppsFromSteamApi`.** It logs through the corrected masking (`SanitizeRequestUriFixed`). With the masking as written, every call throws before the request is sent (see Findings, `AppListUriMaskingThrows`).
- **`GameCategories.DecodeCategories`.** Gson's construction of the category set carries no contract of its own. It is used through `GameService.ClassificationFollowsWireIds`.
- **The Mongo lambda.** `src/main/java/lambdas/UpdateGameCollectionLambda.java` repeats `refreshGamesCollection` inline after reading a settings file, and is not modelled separately.
- **Remaining plumbing.** `SteamAPIUtil`, `SteamRequestHandler`, the Mongo utilities, `RemoveUserTableLambda` and the test sources are plumbing or I/O. The lambda's fetch is an input of `HandleRequest`.

Five behaviours of the code that are easy to misread, as the model has them:

- **Missing categories.** `parseGameDetailsList` returns the parsed `data` object as it is (src/main/java/sggc/infrastructure/SteamRequestSender.java:149-151). A detail response with `success` true and no `categories` therefore yields null categories, and the loop in `isGameMultiplayer` throws `NullPointerException` (src/main/java/sggc/services/GameService.java:45). `GameService.IsGameMultiplayer` states this case.
- **Case in the diff.** The DynamoDB job's diff (src/main/java/sggc/lambdas/UpdateGameCollectionLambda.java:63) uses `sggc.models.Game.equals`, which compares appids exactly with `Objects.equals` (src/main/java/sggc/models/Game.java:32). Only the Mongo job ignores case.
- **Success error list.** `SuccessResult` passes null as its error list (src/main/java/sggc/models/service/SuccessResult.java:6).
- **Failure signalling.** No modelled code constructs a `Result`. The request code throws, and `GameService` returns null.
- **Masking reaches other text.** `maskSteamApiKey` masks with `replaceAll` over the whole URI (src/main/java/sggc/infrastructure/SteamRequestSender.java:196). Every occurrence of the key's text is masked, not only the key parameter's value: `key=1&other=1` is logged as `key=*************&other=*************` (`SteamRequestSender.RepeatedValueIsMaskedTwice`). When the value occurs only at the key, the rest of the URI is kept as it was (`SteamRequestSender.KeyOnlyValueIsMaskedInPlace`). The list URI has no other parameter, so only the address could be affected there.

The DynamoDB lambda never calls `GameService.isGameMultiplayer`, so the games it writes have no multiplayer flag set.

## Findings

| source | as written | input that shows it | evidently intended | confidence | as-written member | corrected member |
|---|---|---|---|---|---|---|
| src/main/java/sggc/infrastructure/SteamRequestSender.java:194-195 | the key value ends at `indexOf("&")` within the text from "key" onward, which is -1 when the key is the last query parameter, so `substring(4, -1)` throws `StringIndexOutOfBoundsException`; `sanitizeRequestUri` is evaluated for the `log.debug` at line 69, so `requestAllSteamAppsFromSteamApi` always throws | the list URI `https://api.example/ISteamApps/GetAppList/v2/?key=SECRET` (address without "key", key without `&`) | mask the value up to the end of the URI when no `&` follows it | high (proved for every such URI; not executed) | SteamRequestSender.AppListUriMaskingThrows | SteamRequestSender.AppListUriMaskingFixed |
