# Star Map backend: a Dafny model

This project models the core of the Star Map backend, a FastAPI service. Users place
stars on a shared sky map. A star has x/y coordinates in [-1, 1], a message of at most
280 characters and a brightness. The brightness decays with the time since the last
like, and each like boosts it. Stars and users are entities in Azure Table Storage.
Redis counts recent likes per star. Every change is published as a server-sent event
on a per-topic queue. Configuration comes from pydantic settings. Three scripts sit
beside the service: a configuration checker, a `.env` generator and an archive
migration.

The model is split into modules that follow the source files:

| module | file | models |
|---|---|---|
| `Wrappers`, `PyValue`, `Text` | wrappers.dfy, pyvalue.dfy, text.dfy | results and options; Python values and entity dicts; the string operations the code calls (`strip`, `split`, `find`, `str(int)`) |
| `TableStore` | table.dfy | the Azure table as a class whose field is the ordered sequence of entities `list_entities()` returns, with `get_entity`, `query_entities`, `create_entity`, `update_entity` (merge) and `delete_entity` |
| `Popularity` | popularity.dfy | the Redis popularity counters as a class over a map, with `get`, `incr` and `keys` |
| `StarModel` | src/models/star.py | validators, `to_entity`/`from_entity` and the brightness decay |
| `StarViews`, `StarsApi` | src/api/stars.py | the functions the star handlers compute, then the handlers as methods proved to return them |
| `Sse`, `SsePublisher` | src/api/sse.py, src/api/sse_publisher.py | the two event queues, the stream generator loop and the publishers |
| `UserModel`, `UsersApi` | src/models/user.py, src/api/users.py | the user model and the user endpoints |
| `Admin` | src/api/admin.py | the API-key check and `remove_all_stars` |
| `Settings` | src/config/settings.py | the field validators, the defaults and `verify_required_settings` |
| `ValidateConfig` | src/validate_config.py | `check_config` |
| `GenerateEnv` | src/generate_env.py | the `.env` reader, the writer, the merge rules and `generate_env_file` |
| `Migrate` | src/migrate.py | archive names and paths, over a filesystem class |
| `Monolith` | src/database_service.py | the older single-file service: its decay copy, `add_star`, `like_star`, `remove_star` and `remove_all_stars` |

Some inputs the code reads from outside become parameters:

- The clock reading, the `YYYYMM` partition month, generated uuids and `math.exp`.
  - `math.exp` is a function parameter constrained by a predicate: value 1 at 0, positive everywhere and strictly increasing.
- Whether each storage call raises (a `fault` flag per call).
- Whether the client has disconnected before each pass of a stream loop.

The handlers are methods over the table, counter and queue objects. They state their
whole new state, and what they return in each case. Numbers are `real`.

`src/api/stars.py:379-383` redefines `calculate_current_brightness` with the same
body. That definition shadows the import at line 10. The model uses
`StarModel.CurrentBrightness` for both. The monolith's third copy is modelled on its
own and proved equal (`Monolith.DecayCopiesAgree`).

Where the code and its documentation disagree, the model follows the code:

- The SSE queues are single-consumer. With several streams open, each event reaches exactly one of them, not every client.
- A `last_liked` in the future is not clamped, and the brightness is not monotone in the elapsed time. `StarModel.FutureLikeNotClamped` and `StarModel.BrightnessRisesAfterFifty` state both. The unclamped brightness above the base is what the formula gives while `math.exp` can evaluate it, up to about 221 s ahead. From 222 s ahead on, `math.exp` raises OverflowError (`StarModel.FarFutureLikeOverflows`), and the row cannot be shown: `get_stars` answers 500, the active list skips the row, `get_star` answers 404, and the batch and popular lists leave it out (`StarViews.FarFutureRowHidden`).
- On the popular path, the id is `key.split(":")[1]`. A star whose id contains ':' is looked up under a shorter id (`StarViews.KeyIdOfCounterKey`).
- `check_config` checks a freshly loaded configuration. But the `verify_required_settings` it calls inspects the module-level one the process started with. `ValidateConfig.CheckConfig` takes the two as separate inputs. src/database_service.py:193 already runs `verify_required_settings()` at import, so once the import works the running configuration has passed that check, and an invalid result caused by it cannot occur; the model still states what `check_config` does for any running configuration.
- `ACCOUNT_URL` is declared before `USE_MANAGED_IDENTITY`. So the flag is not yet in `info.data` when `validate_account_url` runs, and the check as written never refuses (`Settings.AccountUrlNeverRefusedInDeclarationOrder`). `Settings.Validated` takes whether the flag has been seen as a parameter.
- The monolith's `add_star` stores partition "STAR_" + month, but its `remove_star` and `remove_all_stars` address only partition "STAR". Stars it adds can never be removed through it (`Monolith.MonthlyRowsOutOfReach`).

## Model

| member | source | states |
|---|---|---|
| Text.Strip | src/generate_env.py:50 | `strip()` leaves no whitespace at either end and never lengthens the string |
| Text.LStripRemovesSpace | src/generate_env.py:50 | everything removed at the front is whitespace |
| Text.RStripRemovesSpace | src/generate_env.py:50 | everything removed at the back is whitespace |
| Text.StripInside | src/generate_env.py:50 | the stripped string is a contiguous slice of the original, so it holds no character the original lacks |
| Text.IndexOf | src/generate_env.py:54-55 | `find` gives the first index holding the character, or None exactly when it is absent |
| Text.SplitOnJoins | src/api/stars.py:331 | the pieces of `split(c)` contain no `c` and joined with `c` give back the string |
| Text.SplitAfterHead | src/api/stars.py:313 | splitting `head + c + tail` gives `head` followed by the pieces of `tail` |
| Text.NatToStringValue | src/api/admin.py:65 | `str(n)` is a string of decimal digits whose value is `n` |
| PyValue.GetOr | src/api/stars.py:365-367 | `dict.get(k, d)` is the stored value when `k` is present and `d` otherwise |
| TableStore.IndexOfKey | src/api/users.py:52 | the position of the row with the given PartitionKey/RowKey, with no earlier such row; None exactly when no row has the key |
| TableStore.IndexOfKeyUnique | src/api/users.py:52 | in a table whose keys are unique, any row holding the key is the one found |
| TableStore.InPartition | src/api/users.py:36 | the rows of one partition: exactly the table's rows with that PartitionKey |
| TableStore.WithoutMembers | src/api/stars.py:359 | deleting a key leaves exactly the rows that do not hold it |
| TableStore.WithoutExactly | src/api/stars.py:359 | with unique keys, deleting an absent key changes nothing and deleting a present key removes just that row |
| TableStore.WithoutWellKeyed | src/api/stars.py:359 | deleting keeps the keys unique |
| TableStore.MergeInto | src/api/stars.py:231 | `update_entity` merges the given fields into the row with the same key and leaves every other row alone |
| TableStore.MergeWellKeyed | src/api/stars.py:231 | a merge keeps the keys unique |
| TableStore.MergeEditedRow | src/api/users.py:71-75 | merging an edited copy of a row, with the same key and no fields dropped, replaces just that row |
| TableStore.FirstByRowKey | src/api/stars.py:120-131 | the first row in listing order whose RowKey is the id, in any partition; None exactly when there is none |
| TableStore.FindByRowKey | src/api/stars.py:123-127 | the search loop with `break` finds that first match |
| TableStore.Table.constructor | src/api/stars.py:27 | a table holds the given rows, which are well keyed and in key order |
| TableStore.Table.List | src/api/stars.py:27 | `list_entities` gives every row in order, or raises |
| TableStore.Table.Query | src/api/users.py:36 | `query_entities` on a PartitionKey gives exactly that partition's rows, or raises |
| TableStore.Table.Get | src/api/users.py:52 | `get_entity` succeeds exactly when the key exists and the call does not fail, and returns that row |
| TableStore.Table.Create | src/api/stars.py:269 | `create_entity` adds the row exactly when its key is new and the call does not fail. The row goes in at its place in (PartitionKey, RowKey) order, which is the order later listings return; the table gains just that row, and otherwise nothing changes |
| TableStore.KeyLessOrder | src/api/stars.py:27 | the key order the listings follow is a strict total order: irreflexive, transitive and total |
| TableStore.InsertPosSplits | src/api/stars.py:269 | in an ordered table, rows before the insertion point have smaller keys and rows from it on have greater ones |
| TableStore.InsertByKeyOrdered | src/api/stars.py:269 | inserting a row with a new key keeps keys unique and in order, and the multiset of rows gains exactly that row |
| TableStore.MergeOrdered | src/api/stars.py:231 | a merge keeps the key order |
| TableStore.WithoutOrdered | src/api/stars.py:359 | a delete keeps the remaining rows in key order |
| TableStore.Table.Update | src/api/stars.py:231 | `update_entity` merges exactly when the key exists and the call does not fail; otherwise nothing changes |
| TableStore.Table.Delete | src/api/stars.py:359 | `delete_entity` removes the rows holding the key, unless the call fails |
| Popularity.CounterKey | src/api/stars.py:111 | the counter key is "star_popularity:" followed by the id |
| Popularity.Bumped | src/api/stars.py:219 | `incr` adds one to a present counter and starts a missing one at 1 |
| Popularity.Counters.constructor | src/api/stars.py:109-110 | the cache state: whether Redis is initialized, and the counters |
| Popularity.Counters.Get | src/api/stars.py:112 | `get` returns the counter exactly when it exists |
| Popularity.Counters.Incr | src/api/stars.py:219 | `incr` changes only that counter, as `Bumped` says |
| Popularity.Counters.Keys | src/api/stars.py:310 | `keys(prefix*)` lists every counter key with the prefix and nothing else, each once |
| StarModel.ValidateCoordinate | src/models/star.py:17-21 | a coordinate is accepted exactly when -1 <= v <= 1, both ends inclusive, and is kept as given |
| StarModel.ValidateMessage | src/models/star.py:23-27 | a message is accepted exactly when it has at most 280 characters |
| StarModel.ValidatorExamples | tests/api/test_stars.py:82-113 | 1.0 and -1.0 pass; 2.0 and -2.0 fail; 300 characters fail and 280 pass |
| StarModel.ValidIff | src/models/star.py:17-27 | a star is valid exactly when both coordinates are in [-1, 1] and the message has at most 280 characters |
| StarModel.IdOr | src/models/star.py:34 | `id or uuid` keeps a non-empty id and otherwise takes the generated one |
| StarModel.RealOr | src/models/star.py:39 | `x or default` keeps a non-zero number and otherwise takes the default |
| StarModel.FromEntity | src/models/star.py:43-53 | whatever `from_entity` builds passes the validators |
| StarModel.EntityRoundTrip | src/models/star.py:29-53 | `from_entity(to_entity(s))` keeps x, y, message and brightness; it keeps the id only when non-empty, and last_liked only when set and non-zero, because of the two `or`s |
| StarModel.EntityPartition | src/models/star.py:33 | the PartitionKey is "STAR_" followed by the year and month |
| StarModel.DecayFactor | src/models/star.py:58 | the factor is at least 0.01; for t >= 0 it is at most 1; it is 1 - 0.01t up to t = 99 and 0.01 from there on; for t < 0 it exceeds 1 |
| StarModel.CurrentBrightness | src/models/star.py:59 | the brightness is never below 20, whatever the base and the elapsed time |
| StarModel.ExponentShape | src/models/star.py:58-59 | the exponent factor·t is 0 at t = 0, peaks at 25 at t = 50, drops to 0.99 at t = 99 and is 0.01t beyond; it is a parabola in between |
| StarModel.ExponentBeforeFloor | src/models/star.py:58-59 | up to t = 99 the exponent is 25 - 0.01(t - 50)² and lies in [0, 25] |
| StarModel.BrightnessAtLike | src/models/star.py:57-59 | right at the like the brightness is max(20, base) |
| StarModel.BrightnessBounded | src/models/star.py:57-59 | for any past like the brightness lies between 20 and max(20, base) |
| StarModel.BrightnessRisesAfterFifty | src/models/star.py:58-59 | the decay is not monotone: above the floor, a star liked 99 s ago is brighter than one liked 50 s ago |
| StarModel.FutureLikeNotClamped | src/models/star.py:57-59 | a like in the future is not clamped: the factor exceeds 1, the exponent is positive and the formula's result exceeds the base; the handlers show that result only while the exponent is within `math.exp`'s range |
| StarModel.PastLikeInRange | src/models/star.py:57-59 | a past or present like never makes `math.exp` overflow |
| StarModel.FarFutureLikeOverflows | src/models/star.py:57-59 | a like 222 s or more in the future gives `math.exp` an argument above 709.78, where it raises OverflowError |
| StarModel.FutureLikeDiffersFromNow | src/models/star.py:57-59 | a future like gives more brightness than a like at the present moment |
| StarViews.ViewOf | src/api/stars.py:30-37 | the view shown for a row has brightness at least 20 |
| StarViews.FarFutureRowHidden | src/api/stars.py:23-37 | a row liked 222 s or more in the future is not viewable and not active: `get_stars` answers 500, the active filter skips it and the lookup answers 404 |
| StarViews.PastRowViewable | src/api/stars.py:30-37 | a complete row liked in the past or present can always be shown |
| StarViews.ActiveAborts | src/api/stars.py:60-100 | the active filter gives up, and the handler answers [], exactly when some row's LastLiked is neither a number nor a bool (a bool compares as 1 or 0) |
| StarViews.ActiveMembers | src/api/stars.py:60-78 | the active stars are exactly the views of rows whose LastLiked exists and is at or after the cutoff |
| StarViews.ActiveConcat | src/api/stars.py:60-78 | the filter works row by row: on two lists it gives the first list's actives followed by the second's, so listing order is kept |
| StarViews.Recent | src/api/stars.py:108-115 | a like count is read exactly when Redis is initialized and the star has a counter |
| StarViews.StarLookup | src/api/stars.py:120-146 | found exactly when a first RowKey match exists and is readable, else 404; the view is that row's; is_popular holds exactly when a count exists and reaches the threshold |
| StarViews.LookupIgnoresPartition | src/api/stars.py:120-131 | the lookup does not depend on PartitionKeys |
| StarViews.GetStarSpec | src/api/stars.py:166-176 | the id "active" answers an empty list; any other id answers the lookup or its 404 |
| StarViews.FoundMembers | src/api/stars.py:334-341 | the batch keeps exactly the replies that succeeded; 404s are skipped |
| StarViews.FoundInOrder | src/api/stars.py:334-341 | when every id is found, the batch is the replies in request order |
| StarViews.BatchActive | src/api/stars.py:169-173 | an id that strips to "active" puts an empty list into the batch |
| StarViews.KeyId | src/api/stars.py:313 | the id taken from a counter key contains no ':' |
| StarViews.KeyIdOfCounterKey | src/api/stars.py:313 | the counter key of an id without ':' gives the id back; an id with ':' is not recovered |
| StarViews.CollectedQualify | src/api/stars.py:312-321 | every collected star comes from a listed counter at or above the threshold, and its lookup succeeded |
| StarViews.InsertSorted | src/api/stars.py:323 | inserting into a list sorted by brightness, highest first, keeps it sorted and adds exactly that star |
| StarViews.SortSorted | src/api/stars.py:323 | `sorted(..., reverse=True)` by brightness is non-increasing and a permutation of its input |
| StarViews.SortIsStable | src/api/stars.py:323 | stars of equal brightness keep their original relative order |
| StarViews.PopularQualify | src/api/stars.py:312-323 | the popular list is sorted by brightness, highest first, and holds only found stars whose counter reaches the threshold |
| StarViews.Boost | src/api/stars.py:209 | the boosted brightness is at most 100, is b + 20 when b <= 80, and is 100 from there on |
| StarViews.BoostSettles | src/api/stars.py:209 | boosting never lowers a boosted value, and 100 is a fixed point |
| StarViews.Liked | src/api/stars.py:209-210 | a liked row has the boosted Brightness and LastLiked = now; every other field is unchanged |
| StarViews.MergeLiked | src/api/stars.py:209-231 | writing the liked row back replaces exactly that row of the table |
| StarViews.NewStarEntity | src/api/stars.py:259-268 | a new star is keyed ("STAR_" + month, id or uuid), with Brightness `star.brightness or 100.0` and LastLiked = CreatedAt = now |
| StarViews.NewStarVsToEntity | src/api/stars.py:259-268 | the handler's entity agrees with `Star.to_entity` on key, position, message and CreatedAt; Brightness agrees only for a non-zero brightness, and LastLiked only when last_liked is unset, zero or now |
| StarViews.AddReplyOf | src/api/stars.py:284-291 | the add response carries the stored RowKey |
| StarViews.AddReplyMatchesEntity | src/api/stars.py:273-291 | the response and the "create" event carry the same id, brightness, last_liked and position as the stored entity |
| StarViews.DeleteFound | src/api/stars.py:359 | deleting by the found row's own key removes just that row |
| StarsApi.GetStars | src/api/stars.py:22-37 | every row's view, in listing order; a row that cannot be shown, or a failed listing, is an error (500) |
| StarsApi.GetActiveStars | src/api/stars.py:39-100 | the active filter's result, or [] when the listing fails or a row cannot be compared |
| StarsApi.GetStarImpl | src/api/stars.py:102-164 | the search loop and the popularity read compute the lookup |
| StarsApi.GetStar | src/api/stars.py:166-176 | the handler answers `GetStarSpec` |
| StarsApi.GetStarsBatch | src/api/stars.py:328-341 | the batch splits the ids on ',', strips each, looks each up and keeps the successes in order |
| StarsApi.GetPopularStars | src/api/stars.py:296-326 | without Redis, []; otherwise the qualifying stars of the distinct listed counter keys, sorted by brightness |
| StarsApi.LikeStar | src/api/stars.py:178-252 | a missing or unreadable star answers 404 and changes nothing; otherwise the counter is incremented when Redis is up, the row is replaced by its liked version, and one "update" event with the response's fields is published; a failed update answers 404 and leaves the table as it was |
| StarsApi.AddStar | src/api/stars.py:254-294 | an invalid star answers 422; a valid one is stored as `NewStarEntity` and publishes one "create" event, unless the key exists or the call fails (500, nothing stored or published) |
| StarsApi.RemoveStar | src/api/stars.py:343-377 | a missing id answers 404; otherwise the first match is deleted by its own key and one "delete" event with id, x, y and message is published; a failed call answers 500 and changes nothing |
| Sse.DataFrame | src/api/sse.py:25 | an event frame is "data: ", the event's `str`, then a blank line; it is never the keep-alive frame |
| Sse.Step | src/api/sse.py:20-27 | one pass: a disconnect ends the stream and leaves the queue; otherwise the oldest event is taken, or a keep-alive is sent on an empty queue |
| Sse.Serve | src/api/sse.py:19-27 | one frame per pass at most; the disconnect itself yields no frame |
| Sse.ServeClosedForm | src/api/sse.py:19-27 | a lone stream yields one frame per pass before the disconnect; the queued events come first, in order, then keep-alives; what it did not reach stays queued |
| Sse.DisconnectedFirst | src/api/sse.py:20-22 | a client gone before the first pass gets nothing, and the queue is untouched |
| Sse.Queues.constructor | src/api/sse.py:10-11 | both queues start empty |
| Sse.Queues.StreamStep | src/api/sse.py:20-27 | the step method takes one pass on its own topic's queue and leaves the other queue alone |
| Sse.Queues.Stream | src/api/sse.py:19-27 | the loop yields the frames of `Serve` on its topic's queue and leaves the rest queued |
| Sse.ExactlyOnce | src/api/sse.py:24 | with streams and publishes interleaved, the events delivered to all streams, followed by the queue, are the queued and published events in order: each reaches one stream, once |
| Sse.OneEventTwoStreams | src/api/sse.py:10-11 | the queue is not a broadcast: of two open streams, the second gets a keep-alive, not the event |
| Sse.QueuedForLater | src/api/sse.py:24 | events published while no stream reads are delivered to the next stream that polls |
| Sse.ClosedStaysSilent | src/api/sse.py:20-22 | a stream that has ended yields nothing more |
| SsePublisher.TypedEvent | src/api/sse_publisher.py:23-26 | a published event is a dict of two fields |
| SsePublisher.TypedEventFields | src/api/sse_publisher.py:23-26 | its "type" is the event type and its "data" is the data unchanged |
| SsePublisher.TypedEventInjective | src/api/sse_publisher.py:23-26 | distinct type or data give distinct events |
| SsePublisher.PublishStarEvent | src/api/sse_publisher.py:15-32 | a star event is appended to the star queue only |
| SsePublisher.PublishUserEvent | src/api/sse_publisher.py:34-51 | a user event is appended to the user queue only |
| SsePublisher.PublishedEventServedInOrder | src/api/sse_publisher.py:29 | a published event is served after the events already queued, by a stream that keeps polling |
| UserModel.ValidateName | src/models/user.py:13-17 | a name is accepted exactly when it has at least 2 characters |
| UserModel.ValidIff | src/models/user.py:13-17 | validity depends on the name only; the email is not validated |
| UserModel.ToEntity | src/models/user.py:19-27 | the entity has PartitionKey "USER", RowKey `id or uuid`, Username = name and Email = email |
| UserModel.FromEntity | src/models/user.py:29-37 | a user read back is valid and carries the entity's Username and Email |
| UserModel.EntityRoundTrip | src/models/user.py:19-37 | `from_entity(to_entity(u))` keeps the name and email, and the id when it is non-empty |
| UsersApi.Edited | src/api/users.py:71-72 | the edit writes Username and Email and keeps every other field, CreatedAt included |
| UsersApi.CreateUser | src/api/users.py:13-29 | an invalid user answers 422; a valid one stores `to_entity`, answers its RowKey and publishes one "create" event; a failed create (key present or call failed) answers 500 and publishes nothing |
| UsersApi.GetUsers | src/api/users.py:31-46 | the views of exactly the USER partition's rows, in order; a failed query, or a row without Username or Email, answers 500 |
| UsersApi.GetUsersOnlyUsers | src/api/users.py:36-43 | the query returns rows of partition USER only |
| UsersApi.GetUser | src/api/users.py:48-61 | the (USER, id) row's view, or 404 when it is absent, unreadable or the call fails |
| UsersApi.UpdateUser | src/api/users.py:63-95 | an invalid user answers 422; a missing user or failed call answers 404 and changes nothing; otherwise only Username and Email of that row change, the response's created_at is the stored one, and one "update" event is published |
| UsersApi.DeleteUser | src/api/users.py:97-118 | a missing user or failed call answers 404 and changes nothing; otherwise (USER, id) is removed and one "delete" event carrying only the id is published |
| UsersApi.GetUserStars | src/api/users.py:120-135 | an existing user has no stars ([]); a missing user or failed call answers 404 |
| Admin.GetApiKey | src/api/admin.py:22-36 | no configured key: 503 whatever is sent; otherwise the key is accepted, and returned unchanged, exactly when it equals the configured one; anything else, a missing header included, is 401 |
| Admin.SurvivorsListed | src/api/admin.py:50-54 | only listed rows whose delete failed are left after the loop |
| Admin.FailedSurvive | src/api/admin.py:50-54 | every listed row whose delete failed is left after the loop; with `SurvivorsListed`, the survivors are exactly those rows |
| Admin.NoFaultsNoSurvivors | src/api/admin.py:50-54 | when no delete fails, the table ends empty |
| Admin.DeleteEach | src/api/admin.py:50-54 | a delete is attempted for every listed row, and one failure does not stop the rest |
| Admin.RemoveAllStars | src/api/admin.py:38-67 | the count is the number of rows listed before deletion and is reported even when deletes fail; exactly one `{"event": "remove_all"}` is queued unless the put fails, which does not change the response; a failed listing answers 500 |
| Settings.EnvVar | src/config/settings.py:75 | `os.getenv('ENVIRONMENT', 'development')` |
| Settings.ValidateEnvironment | src/config/settings.py:98-103 | the environment is accepted exactly when it is development, staging, production or test |
| Settings.ValidateAccountUrl | src/config/settings.py:40-45 | the account URL is refused exactly when the already-validated flag is true and the URL is empty or absent |
| Settings.AccountUrlNeverRefusedInDeclarationOrder | src/config/settings.py:31-45 | with the flag declared after the URL, the check never refuses |
| Settings.ValidateCorsOrigins | src/config/settings.py:73-78 | the origins are refused exactly when the ENVIRONMENT variable is "production" and '*' is listed |
| Settings.Validated | src/config/settings.py:82-113 | loading succeeds exactly when all three validators accept, and then keeps the values |
| Settings.Defaults | src/config/settings.py:15-96 | the defaults: the ENVIRONMENT field is the ENVIRONMENT variable (default "development"); the Azurite connection string and Redis host "localhost" in development only, else None; CACHE_TTL 300, POPULAR_CACHE_TTL 3600, threshold 50, window 3600, 5 requests per 60 s |
| Settings.DefaultsValidate | src/config/settings.py:82-113 | the defaults load, unchanged, exactly when the ENVIRONMENT variable is one of the four environment names; any other value makes `AppSettings()` raise |
| Settings.UnknownEnvironmentRefused | src/config/settings.py:98-103 | ENVIRONMENT=prod is refused and ENVIRONMENT=staging loads |
| Settings.MonolithDefaults | src/database_service.py:62-97 | the monolith's defaults: the same as the modular ones for the same ENVIRONMENT variable, except for no connection string in any environment and a Redis host that must be given |
| Settings.CriticalErrors | src/config/settings.py:133-136 | one critical error exactly when managed identity is off and the connection string is empty or absent |
| Settings.Warnings | src/config/settings.py:139-144 | a warning for a missing Redis host and one for '*' in production, in that order, never a critical one |
| Settings.WarningLinesAt | src/config/settings.py:147-148 | each warning is logged as a configuration warning, in order |
| Settings.ErrorLinesAt | src/config/settings.py:152-153 | each error is logged as a configuration error, in order |
| Settings.StartupLogOrder | src/config/settings.py:146-156 | the warnings are logged first; the log ends with the startup failure exactly when there is a critical error |
| Settings.CollectProblems | src/config/settings.py:129-144 | the appending checks collect exactly the critical errors and the warnings |
| Settings.VerifyRequiredSettings | src/config/settings.py:127-156 | the process exits exactly when managed identity is off and there is no connection string; the log is the startup log |
| Settings.LogProblems | src/config/settings.py:146-156 | the warnings are logged, then, only if there are critical errors, each error and the failure line, then the exit |
| Settings.DefaultsAtStartup | src/config/settings.py:127-156 | with the defaults, development has no problem; any other environment stops for the missing connection string and warns about Redis |
| Settings.MonolithDefaultsStop | src/database_service.py:161-190 | with its defaults the monolith always stops for the missing connection string |
| ValidateConfig.Masked | src/validate_config.py:64 | a secret is shown as "<hidden>" when set and None otherwise, never its value |
| ValidateConfig.ViewHidesSecrets | src/validate_config.py:50-79 | the view does not depend on the connection string or Redis password, only on whether each is set |
| ValidateConfig.ProductionWarnings | src/validate_config.py:42-47 | no warning outside production; in production one for DEBUG and one for '*', and never the critical message |
| ValidateConfig.ProductionChecks | src/validate_config.py:41-47 | the appending checks give exactly those warnings |
| ValidateConfig.CheckConfig | src/validate_config.py:21-84 | a load failure gives (False, one message, {}); otherwise valid exactly when the startup check does not exit, and the messages are the warnings followed by the critical message when invalid |
| ValidateConfig.CriticalComesLast | src/validate_config.py:81 | the result is invalid exactly when the last message is the critical one; outside production it is the only possible message |
| GenerateEnv.PutNames | src/generate_env.py:56 | assigning an existing key keeps the key order; a new key goes last |
| GenerateEnv.PutGet | src/generate_env.py:56 | after an assignment the key maps to the new value and no other key changes, so for duplicates the last occurrence wins |
| GenerateEnv.ReadLinesDistinct | src/generate_env.py:45-56 | what the reader builds is a dict: no key twice |
| GenerateEnv.ReadEnvFile | src/generate_env.py:43-61 | a missing file exits; otherwise the result is the line loop run over the file's lines |
| GenerateEnv.CommentSkipped | src/generate_env.py:51-52 | a line starting with '#' adds nothing |
| GenerateEnv.BlankSkipped | src/generate_env.py:51-52 | an empty line adds nothing |
| GenerateEnv.NoEqualsSkipped | src/generate_env.py:54 | a line without '=' adds nothing |
| GenerateEnv.ReadStrippedParsed | src/generate_env.py:54-56 | a line is split at its first '=', so the value may contain '='; key and value are stripped |
| GenerateEnv.ReadEntryLine | src/generate_env.py:71 | a written line `key=value` reads back as that assignment |
| GenerateEnv.Basename | src/generate_env.py:67 | the base name is the part of the path after the last '/' |
| GenerateEnv.CommentLine | src/generate_env.py:67-68 | the header lines start with '#' |
| GenerateEnv.HeaderReadsEmpty | src/generate_env.py:67-68 | the two header lines and the blank line read as nothing |
| GenerateEnv.EntryLines | src/generate_env.py:70-71 | one `key=value` line per item, in order |
| GenerateEnv.WriteEnvFile | src/generate_env.py:63-76 | a failed write exits; otherwise the text is the two header lines, a blank line and one line per item |
| GenerateEnv.WrittenReadsBack | src/generate_env.py:43-71 | reading back a written mapping gives the same mapping, when keys and values are stripped and newline-free and no key contains '=' or starts with '#' |
| GenerateEnv.PutAllGet | src/generate_env.py:106-108 | after the overrides, a key has its override value if it has one, else its old value |
| GenerateEnv.GeneratedValues | src/generate_env.py:103-111 | the result is the template, overwritten by the environment's defaults, then ENVIRONMENT set to the environment |
| GenerateEnv.OutputPath | src/generate_env.py:86-87 | the output path is the one given, or ".env." + environment when none or an empty one is given |
| GenerateEnv.MergeDefaults | src/generate_env.py:105-111 | the merge loop computes that result |
| GenerateEnv.GenerateEnvFile | src/generate_env.py:78-114 | an unknown environment exits 1 before any file is touched; a missing template exits 1 before the overwrite prompt; declining to overwrite exits 0; the template is read only after the prompt, and an unreadable one exits 1; otherwise the merged template is written to the output path |
| Migrate.JoinShape | src/migrate.py:26 | `os.path.join(a, b)` is `b` when `b` is absolute, and otherwise `a`, possibly a '/', then `b` |
| Migrate.SplitExt | src/migrate.py:42 | stem + ext is the filename, and ext is empty or a '.' followed by no '.' or '/' |
| Migrate.ArchiveNameRecoversOriginal | src/migrate.py:42 | the archive name is stem + "_" + timestamp + ext; removing "_" + timestamp recovers the filename |
| Migrate.OriginalsGoToArchiveSubdirs | src/migrate.py:16-24 | every original file's subdirectory is one of the archive subdirectories |
| Migrate.FileSystem.constructor | src/migrate.py:22-53 | the filesystem holds the given files and directories and no operations yet |
| Migrate.FileSystem.MakeDirs | src/migrate.py:27 | `makedirs(exist_ok=True)` adds the directory and touches no file |
| Migrate.FileSystem.Copy | src/migrate.py:46 | `copy2` makes the target hold the source's content and changes nothing else |
| Migrate.FileSystem.Remove | src/migrate.py:51 | `os.remove` removes just that file |
| Migrate.SubdirOpsInOrder | src/migrate.py:25-27 | one `makedirs` per subdirectory, in order |
| Migrate.SubdirPathsMembers | src/migrate.py:25-27 | the directories created are exactly the joined subdirectory paths |
| Migrate.MakeEach | src/migrate.py:25-27 | the loop creates exactly those directories and touches no file |
| Migrate.EnsureArchiveDirs | src/migrate.py:22-28 | creates the archive subdirectories, touches no file and returns the base unchanged |
| Migrate.FourArchiveDirs | src/migrate.py:24 | those are exactly the four listed subdirectories |
| Migrate.Moves | src/migrate.py:35-43 | one source and target path per original file |
| Migrate.ArchiveOneCases | src/migrate.py:39-54 | a missing source is skipped; otherwise it is copied to join(base, subdir, archive name), and removed after the copy only when asked |
| Migrate.ArchiveOneFile | src/migrate.py:39-54 | one iteration of the loop does that |
| Migrate.ArchiveEach | src/migrate.py:35-54 | the loop does that for each file in order |
| Migrate.ArchiveFiles | src/migrate.py:30-54 | `archive_files` does that for the three original files |
| Migrate.ArchivedRemovesOnlyAfterCopy | src/migrate.py:46-52 | every removal comes right after the copy of the same file, and there is none unless originals are to be removed |
| Monolith.CalculateCurrentBrightness | src/database_service.py:638-641 | the copy never returns less than 20 |
| Monolith.DecayCopiesAgree | src/database_service.py:638-641 | the copy equals the star model's decay on every input |
| Monolith.Event | src/database_service.py:328-338 | the monolith's events are dicts of two fields |
| Monolith.EventFields | src/database_service.py:328-338 | they carry "event" and "star", have no "type", and differ from the publisher's events |
| Monolith.RemoveAllEventHasNoStar | src/database_service.py:746-748 | the remove_all event has "event" but no "star" |
| Monolith.BrightnessField | src/database_service.py:257 | the request's brightness is 100.0 when omitted, None when sent as null, or the value sent |
| Monolith.AddedEntity | src/database_service.py:315-324 | the stored star is keyed ("STAR_" + month, a fresh uuid), whatever id was sent |
| Monolith.AddEventBrightness | src/database_service.py:321-335 | the stored brightness is always 100.0, but the "add" event carries the request's; the two agree exactly when the request omitted it or sent 100.0 |
| Monolith.AddedVsModular | src/database_service.py:312-339 | compared with the modular `add_star`, the keys and most fields agree; the RowKey differs when an id is sent, and the brightness differs unless it is 100.0 |
| Monolith.AddStar | src/database_service.py:312-339 | an invalid star answers 422; a valid one is stored and answered, and one "add" event is queued; a failed create answers 500 and changes nothing |
| Monolith.LikeStar | src/database_service.py:563-636 | as the modular like: same boost, counter and row replacement; it answers the whole liked row and queues one "update" event |
| Monolith.LikedReports | src/database_service.py:594-595 | the liked row carries the boosted brightness, at most 100, and LastLiked = now |
| Monolith.RemoveStar | src/database_service.py:715-735 | addresses only (STAR, id): absent answers 404; otherwise the row is deleted and one "remove" event queued; a failed call, or a row without X, Y or Message, answers 500 |
| Monolith.FirstFault | src/database_service.py:742-743 | the index of the first failing delete, which ends the loop |
| Monolith.DeletedMembers | src/database_service.py:742-743 | deleting a list of keys leaves exactly the rows holding none of them |
| Monolith.DeleteListed | src/database_service.py:742-743 | the loop deletes the listed rows in order until the first failure |
| Monolith.RemoveAllStars | src/database_service.py:737-750 | with no failure, exactly the STAR partition is deleted and one remove_all event queued; a failure answers 500, keeps the deletions already done, and queues nothing |
| Monolith.RemoveAllKeepsOtherPartitions | src/database_service.py:741-743 | removing everything leaves exactly the rows of other partitions |
| Monolith.AddedIsMonthly | src/database_service.py:316 | `add_star` only writes partitions "STAR_" + month |
| Monolith.MonthlyRowsOutOfReach | src/database_service.py:719-743 | in a table of such rows, `remove_star` finds nothing and `remove_all_stars` deletes nothing |

## Left out

- Floating point: numbers are `real`. Rounding in `math.exp`, `min`, `max` and the subtraction of timestamps is not modelled. The OverflowError of `math.exp` is modelled through a limit on its argument, given with the request (709.78 in the lemmas); underflow to 0 is not modelled. `math.exp` appears only through its stated properties, not as an exact function.
- Time: one clock reading per request. `stars.py` reads the clock twice in `add_star` (lines 258 and 260), and the decay reads it again for each star. A month boundary between those readings is not modelled.
- Concurrency: asyncio scheduling, the 15-second `wait_for` timeout and its cancellation are not modelled. A timeout is a pass over an empty queue, and interleavings are an explicit list of publishes and polls.
- `publish_star_event_sync` and `publish_user_event_sync` (src/api/sse_publisher.py:54-86): their event-loop detection is not modelled.
- Exceptions from `Queue.put`: the queues are unbounded, so a put never fails. The publishers' `except` branches, and `admin.py`'s, are therefore never taken except where the model passes a fault flag in.
- Redis beyond the counters: errors on an initialized client, counter expiry (`expire` and the window), FastAPICache `set`/`delete` with their TTLs, and the rate limiter are not modelled. A counter holding a non-integer, where `int()` raises, is not modelled either.
- Azure Tables SDK: `list_entities` is a snapshot of the rows, in (PartitionKey, RowKey) order; keys are compared character by character on Unicode code points, and the service's UTF-16 code-unit order for characters outside the Basic Multilingual Plane is not modelled. Its paging, retries, table creation and ETag concurrency are not modelled. The monolith's `remove_all_stars` runs `query_entities` twice (lines 741-742): the unused first query is left out and the second is a snapshot.
- FastAPI and pydantic:
  - Route matching and its order (`/popular` registered after `/{star_id}`) are not modelled.
  - Request parsing is not modelled: a bool sent as a number, and `CreatedAt` parsed as a datetime.
  - Error-message formatting is not modelled.
  - Settings loading from the environment and `.env` files is reduced to a given configuration plus the validators.
- Values the handlers cannot show: a row without X, Y, Message or Brightness, or with one that is neither a number nor a bool, or with a LastLiked so far in the future that `math.exp` overflows, makes `get_stars` raise. A stored bool is read as Python's 1 or 0. The model answers 500 for it, as FastAPI does for an unhandled exception; the exception itself is not modelled.
- `src/database_service.py` fails at import: line 107 uses `@validator`, but line 19 imports only `field_validator`. `check_config` imports from that file. The model describes both as if the import worked.
- The monolith's other endpoints are not modelled: `create_user`, `get_star`/`_get_star_impl`, `get_popular_stars`, `get_stars_batch`, `get_cache_stats`, startup hooks and OpenAPI. Its read endpoints repeat `src/api/stars.py`, which is modelled.
- The monolith's `stream_stars` (src/database_service.py:752-768) is not modelled separately: it is the same loop as `src/api/sse.py:19-27`, modelled as `Sse.Queues.Stream` on the monolith's own queue object.
- `admin_status` (src/api/admin.py:69-76) only reports settings and is not modelled. The startup warning about a missing key (lines 18-20) is not modelled.
- File I/O in the scripts:
  - Files are strings and the filesystem is a map from paths to contents.
  - `makedirs` creating intermediate directories, `os.path.exists` on directories, and `copy2` raising are not modelled.
  - Universal-newline translation and encoding are not modelled.
  - Prompts, `print` output and `sys.exit` codes are results. `argparse` and the `main` functions of generate_env.py (116-138) and migrate.py (56-77) are not modelled.
- Outside the core and not modelled: the root `database_service.py` (a SQLAlchemy draft), `src/main.py`, middleware, logging setup, health and debug endpoints, and `run.py`.
- StarViews.Insert and StarViews.SortByBrightness: their own contracts state only the length. Sortedness, permutation and stability are proved separately by `InsertSorted`, `SortSorted` and `SortIsStable`.
- StarViews.Replies: its own contract states only the length. What each reply is comes from `BatchLookup` and `GetStarSpec`.
- Settings.WarningLines and Settings.ErrorLines: their own contracts state only the length. The line contents are proved separately by `WarningLinesAt` and `ErrorLinesAt`.
