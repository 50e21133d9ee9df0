# Meals REST server: limiter, store and routes in Dafny

This project models the core of a small C++ REST server that keeps a table of meals (name, quantity, price)
in SQLite and serves it over five HTTP routes, each guarded by a per-URL rate limiter.

- `limiter.dfy` (module `RateLimit`): `Limiter::allow_request` as the class `Limiter`, whose field holds the
  queue of admission times. `Step` is the pure specification of one call, and `Replay` feeds a sequence of
  calls to a fresh limiter. The lemmas cover the burst of ten, rejection, the sliding window, ordering, and
  the spacing of admissions.
- `utility.dfy` (module `Utility`): `get_temporary_folder` with the environment passed in, and
  `UnescapePostData` as a method whose two loops are the methods `ReplacePluses` and `DecodePercents`. It is proved against `Unescaped`. Lemmas compare it with
  percent-decoding as section 2.1 of RFC 3986 defines it.
- `dbmeal.dfy` (module `Meals`): the `DBMeal` record as a class with getters and setters. `Meal` is the value
  that such an object holds.
- `database.dfy` (module `Database`): `DBSQLite` as the class `MealTable` over an optional sequence of rows in
  rowid order. `None` means the `meals` table does not exist. The pure functions `Create`, `LookupName`,
  `LookupId` and `Delete` specify the store calls. The seed file is split with the `getline` semantics in
  `Fields` and `SplitFields`.
- `routes.dfy` (module `Server`): `Routes` as a class holding the limiter registry (`map<string, Limiter>`
  keyed by the raw URL) and the store. Each route is a method. Once admitted, what it answers is a pure
  function of the table (`PostResult`, `GetAllResult`, `GetByIdResult`, `GetByNameResult`, `DeleteResult`).
- `common.dfy` (module `Common`): `Option`, `Result`, `Outcome` and the failure kinds.

Time is a steady-clock reading in nanosecond ticks, passed in as `now`. `std::chrono::duration_cast<seconds>`
truncates. The test "more than one whole second" therefore means at least two seconds of ticks (`StaleIff`).
A full limiter keeps rejecting until its oldest entry is two seconds old, not one. A plain description of the
limiter ("reject while the oldest entry is at most one second old") would give a one-second window. This
model follows the code.

## Model

| member | source | states |
|---|---|---|
| RateLimit.WholeSeconds | Limiter.cpp:15 | `duration_cast<seconds>` of an elapsed tick count: the whole seconds it contains, truncated toward zero for either sign |
| RateLimit.Step | Limiter.cpp:9-23 | one call as a value: below ten entries admit and append `now`; when full, reject and keep the queue while the oldest entry is not stale, otherwise pop the stale front run, append `now` and admit |
| RateLimit.StaleIff | Limiter.cpp:15-19 | the truncated test "more than one whole second elapsed" holds exactly when at least two seconds of ticks elapsed |
| RateLimit.StalePrefix | Limiter.cpp:19-20 | the pop loop removes exactly the run of stale entries at the front: all popped entries are stale and the first kept one is not |
| RateLimit.StepUnderBurst | Limiter.cpp:9-13 | with fewer than ten entries the call admits and appends `now` |
| RateLimit.StepWhenFull | Limiter.cpp:15-22 | with ten entries the call admits exactly when the oldest is at least two seconds old |
| RateLimit.StepShape | Limiter.cpp:9-23 | a rejection leaves the queue unchanged; an admission leaves a suffix of the old queue followed by `now`; the queue never exceeds ten entries |
| RateLimit.SlideKeepsExactlyFresh | Limiter.cpp:19-21 | on a time-ordered queue the sliding path keeps exactly the entries that are not stale |
| RateLimit.StepKeepsOrder | Limiter.cpp:9-23 | with a monotonic clock the queue stays in time order |
| RateLimit.ReplayKeepsInvariant | Limiter.cpp:3-24 | after any sequence of calls the queue is the latest admissions, every older admission is stale, and admissions are spaced |
| RateLimit.AdmissionSpacing | Limiter.cpp:3-24 | any eleven consecutive admissions span at least two seconds, so no two-second window holds more than ten admissions |
| RateLimit.BurstAdmitted | Limiter.cpp:9-13 | the first ten calls on a fresh limiter are all admitted and all remembered |
| RateLimit.EleventhRejected | Limiter.cpp:15-16 | an eleventh call less than two seconds after the first is rejected and changes nothing |
| RateLimit.Limiter.constructor | Limiter.h:14 | a new limiter remembers no request |
| RateLimit.Limiter.AllowRequest | Limiter.cpp:3-24 | the queue and the answer after the call are those of `Step` on the old queue, and the queue stays within ten entries |
| Utility.TemporaryFolder | utility.h:11-29 | the path is TEMP, else TMP, else ".", followed by "/" and the file name |
| Utility.SpacesForPlus | utility.h:40-42 | the '+' loop as a value: same length, no '+' left, every other character kept |
| Utility.LengthMinus3 | utility.h:44 | `data.length() - 3` in `size_t`: the length minus three, wrapping around modulo 2^64 below three |
| Utility.DecodeTerminates | utility.h:43-48 | whether the '%' loop ends: it spins as soon as the first '%' fails the position test, otherwise it decodes that '%' and goes on |
| Utility.Unescaped | utility.h:38-49 | the whole of `UnescapePostData` as a value: the '%' loop applied to the string after the '+' loop |
| Utility.Find | utility.h:40 | the first position of the character, and none exactly when the character does not occur |
| Utility.HexPrefixValue | utility.h:45 | the value read from the two characters after '%' is a byte |
| Utility.ReplacePercent | utility.h:44-46 | each decoding step makes the string shorter |
| Utility.TripletBecomesByte | utility.h:44-46 | a triplet of two hex digits with a non-zero byte is replaced by that byte, and the rest of the string is kept |
| Utility.Decoded | utility.h:43-48 | when the '%' loop ends, no '%' remains |
| Utility.UnescapePostData | utility.h:38-49 | the two loops leave exactly `Unescaped` of the input, which holds no '%' |
| Utility.ReplacePluses | utility.h:40-42 | the '+' loop leaves exactly `SpacesForPlus` of its input |
| Utility.DecodePercents | utility.h:43-48 | on a string where it ends, the '%' loop leaves exactly `Decoded` of its input |
| Utility.ShortStringsTerminate | utility.h:44 | on strings shorter than three characters, the wrapped-around `length() - 3` lets every '%' be decoded, so the loop ends |
| Utility.LatePercentSpins | utility.h:43-48 | a first '%' among the last two characters of a string of three or more makes the loop spin forever |
| Utility.EncodedPlusSurvives | utility.h:40-48 | "%2B" decodes to "+" because spaces are substituted before percent-decoding |
| Utility.DecodedOutputIsDecodedAgain | utility.h:43-48 | decoded output is decoded again: "%2541" becomes "A" |
| Utility.ZeroByteTripletDeleted | utility.h:45-46 | at any position of any string, a '%' whose next two characters read as 0 ("%00", or a malformed pair such as "ZZ") is deleted together with them, and the rest of the string is kept |
| Utility.ZeroByteDeletes | utility.h:45-46 | an instance of `ZeroByteTripletDeleted`: "a%00b" decodes to "ab" |
| Utility.MalformedTripletConsumed | utility.h:45-46 | a malformed triplet is consumed, not kept: "%ZZb" decodes to "b" |
| Utility.CleanInputMatchesFormDecoding | utility.h:38-49 | on input where every '%' starts a two-hex-digit triplet whose byte is neither zero nor '%', the result is form decoding (section 2.1 of RFC 3986 after '+' to space) |
| Utility.DoubleDecodingDiffersFromRfc | utility.h:43-48 | on "%2541" the source's result differs from single-pass RFC 3986 decoding |
| Meals.DBMeal.Default | DBMeal.h:15 | the default meal has an empty name, quantity 0 and an empty price |
| Meals.DBMeal.constructor | DBMeal.h:16 | the meal holds the three arguments unchanged |
| Meals.DBMeal.GetName | DBMeal.h:18 | returns the stored name |
| Meals.DBMeal.GetQuantity | DBMeal.h:19 | returns the stored quantity |
| Meals.DBMeal.GetPrice | DBMeal.h:20 | returns the stored price |
| Meals.DBMeal.SetName | DBMeal.h:22 | changes the name and nothing else |
| Meals.DBMeal.SetQuantity | DBMeal.h:23 | changes the quantity and nothing else |
| Meals.DBMeal.SetPrice | DBMeal.h:24 | changes the price and nothing else |
| Database.NextId | Database.cpp:130-134 | the id SQLite gives an inserted row: it exceeds every id in the table, is 1 for an empty table, and otherwise is one more than an id in the table (the largest) |
| Database.Create | Database.cpp:116-140 | `create_new_meal` on the table state: a missing table fails, a name already present fails with `AlreadyExists`, otherwise the meal is appended under `NextId` |
| Database.CString | Database.cpp:31-33 | a column read through `getText()`: the prefix of the stored text before its first zero byte, the whole text when it holds none |
| Database.LookupName | Database.cpp:19-46 | `get_meal_by_name` on the table state: the meal of the first row whose whole name matches, with name and price cut at their first zero byte by `getText()`; `NotFound` when none, a store failure without a table |
| Database.LookupId | Database.cpp:84-110 | `get_meal_by_id` on the table state: the meal of the row with that id, `NotFound` when none, a store failure without a table |
| Database.Delete | Database.cpp:146-163 | `delete_mail_by_id` on the table state: status 200 and the table without that id, a store failure without a table |
| Database.FirstNamed | Database.cpp:27-29 | the first row in rowid order with that name, and none exactly when no row has it |
| Database.FirstWithId | Database.cpp:91-93 | the first row with that id, and none exactly when no row has it |
| Database.WithoutId | Database.cpp:154-156 | the delete keeps exactly the rows of other ids |
| Database.CreateThenLookup | Database.cpp:116-140 | a meal just created is found by its name, read back through `getText()`; without zero bytes in name and price it is the meal created |
| Database.CreateOutcome | Database.cpp:116-140 | creation fails with a store failure on a missing table, fails with `AlreadyExists` exactly when the name is present, and succeeds exactly when the table exists and the name is new; a failure changes nothing; a success appends one row with the meal and an id above all others, keeping ids ascending |
| Database.CreateTwiceFails | Database.cpp:122-127 | a second creation under the same name fails with the `AlreadyExists` kind |
| Database.DeleteOutcome | Database.cpp:146-163 | a delete on an existing table reports 200 whether or not the id was present; it is idempotent; the id is no longer found; every other row stays |
| Database.WithoutIdKeepsOrder | Database.cpp:154-156 | deleting keeps the ids ascending |
| Database.WithoutIdIdempotent | Database.cpp:154-156 | deleting the same id twice equals deleting it once |
| Database.DeleteKeepsOthers | Database.cpp:154-156 | a lookup of any other id answers as it did before the delete |
| Database.Fields | Database.cpp:224-226 | the fields `getline(ss, item, ',')` yields for a line: `FieldsFrom` with nothing read yet |
| Database.FieldsFrom | Database.cpp:224-226 | the fields still to come: a ',' closes the field being read, a plain character extends it, and at the end a non-empty field is the last one |
| Database.Stoi | Database.cpp:234 | `std::stoi` on a plain decimal numeral with an optional sign: non-positive after '-', non-negative otherwise |
| Database.FieldsAfterPlain | Database.cpp:224-226 | a ','-free field followed by ',' is split off as the first field |
| Database.JoinFields | Database.cpp:224-226 | joining the fields with ',' gives the line back unless it ends in ',' |
| Database.FieldsJoin | Database.cpp:224-226 | splitting joined fields gives them back when none holds ',' and the last is not empty |
| Database.SplitFields | Database.cpp:220-226 | the getline loop yields exactly `Fields` of the line |
| Database.SeedTable | Database.cpp:231-237 | seeding gives one row per line with ascending ids, the last being the number of lines |
| Database.SeedTableRows | Database.cpp:231-237 | line k of the seed file becomes row k, with id k + 1 and the meal its fields describe |
| Database.MealTable.constructor | Database.cpp:10-13 | opening the store keeps a persisted table, seeds a new one when only the seed file exists, and otherwise leaves no table |
| Database.MealTable.CreateTableIfNotExist | Database.cpp:196-241 | the table is created and seeded exactly when the seed file exists and the table does not; otherwise nothing changes |
| Database.MealTable.CreateNewMeal | Database.cpp:116-140 | the outcome and new table are those of `Create` on the meal the object holds |
| Database.MealTable.GetMealByName | Database.cpp:19-46 | builds the `DBMeal` from the name and price cut at their first zero byte, and answers `LookupName` |
| Database.MealTable.GetMealById | Database.cpp:84-110 | answers `LookupId` |
| Database.MealTable.GetAllMeals | Database.cpp:51-75 | every meal in rowid order, or a store failure when the table is missing |
| Database.MealTable.DeleteMealById | Database.cpp:146-163 | the status and new table are those of `Delete`, and ids stay ascending |
| Server.ToInt32 | Routes.cpp:53 | the quantity stored is the JSON integer narrowed to 32 bits: in range, congruent modulo 2^32, and unchanged when it already fits |
| Server.BodyMeal | Routes.cpp:51-54 | the meal the body's fields fill in, with the quantity narrowed to 32 bits; none when a field is missing or of the wrong type, which throws in the source |
| Server.PostResult | Routes.cpp:41-76 | POST once admitted: 400 "Invalid JSON" for an unparseable body, 500 under "message" when a field read throws or the store fails, otherwise 200 and the table `Create` leaves |
| Server.GetAllResult | Routes.cpp:99-140 | GET /meals once admitted: 200 with an array of every meal's object in rowid order, 500 under "message" without a table |
| Server.GetByIdResult | Routes.cpp:165-193 | GET by id once admitted: 200 with the meal's object, or 500 under "message" with the store's failure |
| Server.GetByNameResult | Routes.cpp:226-250 | GET by name once admitted twice: 200 with the meal's object, or 500 under "error" with the store's failure |
| Server.DeleteResult | Routes.cpp:276-302 | DELETE once admitted: the store's status as the HTTP status and the "status" member, or 500 under "error" |
| Server.TwoChecks | Routes.cpp:216-225 | the two limiter checks of GET by name: the second is made only when the first admits |
| Server.WideIdsAlias | Routes.cpp:153 | the URL's integer is narrowed to the handler's 32-bit `int`, so ids 2^32 apart read and delete the same row |
| Server.PostOutcomes | Routes.cpp:39-76 | POST answers 400 exactly for an unparseable body; it answers 200 exactly when all three fields are present, the table exists and the name is new; otherwise it answers 500 and leaves the table unchanged; after a 200 the meal is found by name (as `getText()` reads it back) and one row was appended |
| Server.PostTwiceRefused | Routes.cpp:52-75 | a second POST of the same name answers 500 carrying the `AlreadyExists` kind and changes nothing |
| Server.ListAfterPost | Routes.cpp:103-130 | after a successful POST, GET /meals lists the previous meals followed by the new one |
| Server.PostThenGetByName | Routes.cpp:220-241 | after a successful POST, GET by that name answers 200 with the meal posted, its name and price cut at their first zero byte; without zero bytes, exactly the meal posted |
| Server.ZeroBytePriceCutByName | Database.cpp:31-33 | a price "5\0.99" posted for "Taco" is answered whole by GET /meals/1 and as "5" by GET /meals/Taco |
| Server.PostThenGetById | Routes.cpp:169-183 | after a successful POST, GET by the new row's id answers 200 with the meal posted |
| Server.ErrorKeys | Routes.cpp:68-302 | a 500 carries the exception's text under "message" on POST, GET all and GET by id, and under "error" on GET by name and DELETE |
| Server.DeleteAnswers | Routes.cpp:275-302 | DELETE answers 200 with `{"status": 200}` whenever the table exists, also when repeated; GET by that id then answers 500 carrying the `NotFound` kind; without a table it answers 500 |
| Server.NameLookupTakesTwoSlots | Routes.cpp:216-225 | GET by name consults its URL's limiter twice, so below the burst it takes two slots |
| Server.NameLookupRefusedAfterFirstSlot | Routes.cpp:216-225 | with nine entries, the first check of GET by name admits and the second rejects within two seconds of the oldest, so the request answers 429 after taking a slot |
| Server.Routes.constructor | Routes.cpp:10-15 | the store is opened at TEMP/TMP/"." + "/database.db3", and no URL has a limiter yet |
| Server.Routes.LimiterFor | Routes.cpp:40 | `rateLimiter[url]` returns the URL's limiter and creates an empty one on first use; no other limiter changes |
| Server.Routes.Admit | Routes.cpp:40 | only the URL's window moves, as `Step` says; the store is untouched |
| Server.Routes.PostMeals | Routes.cpp:25-78 | a rejected request answers 429 and leaves the table; an admitted one answers and updates the table as `PostResult` |
| Server.Routes.InsertFromBody | Routes.cpp:41-76 | the answer and new table are `PostResult` of the body on the old table |
| Server.Routes.GetAllMeals | Routes.cpp:85-142 | 429 when rejected, otherwise `GetAllResult`; the table is unchanged |
| Server.Routes.GetMealById | Routes.cpp:151-195 | 429 when rejected, otherwise `GetByIdResult` for the URL's integer narrowed to 32 bits; the table is unchanged |
| Server.Routes.GetMealByName | Routes.cpp:203-253 | the window moves by both checks; the request answers 429 unless both admit, otherwise `GetByNameResult` of the decoded name |
| Server.Routes.DecodeCheckAndLookUp | Routes.cpp:219-250 | decodes the name, checks the limiter again and answers `GetByNameResult` of the decoded name or 429 |
| Server.Routes.DeleteMeal | Routes.cpp:262-305 | 429 and no change when rejected; otherwise the answer and new table are `DeleteResult` for the URL's integer narrowed to 32 bits |

## Left out

- Concurrency: the limiter's mutex and the unsynchronised `unordered_map` registry are not modelled. Each call is one atomic step.
- The clock: the time read by `steady_clock::now()` is a parameter `now`. GET by name reads it twice (`now1`, `now2`).
- Tracing: OpenTelemetry spans, timers and the `elapse` attribute are left out because they do not affect any answer.
- SQL and SQLite: statements are modelled by their effect on a sequence of rows. SQLite I/O failures other than a missing `meals` table are not modelled.
- Message text: `JErrorText(kind)` records which failure was raised (`NotFound`, `AlreadyExists`, `StoreFailure`, `BadRequestBody`). It is not text the client is sure to see. Every store method rethrows with `throw(e)` on a `std::exception&`, which throws a sliced `std::exception`. Its `what()` depends on the platform ("std::exception" with libstdc++).
- Strings are byte strings: each `char` stands for one byte of a `std::string`. `find`, `length()` and `replace` count bytes, so text beyond single bytes (UTF-8 names, for instance) is modelled by its bytes, one `char` each. Characters above 255 stand for nothing in the source. A zero byte is kept everywhere except where the store reads a column through `getText()` (GET by name), which cuts the text there (`CString`).
- SQLite rowids are 64-bit. The random rowid SQLite picks once the largest rowid is 2^63 - 1 is not modelled.
- JSON: `crow::json::load` is represented by `PostBody`, which says only whether the body parsed and which fields are readable. Crow's rendering of responses is not modelled.
- Files and environment: the seed file `meals.txt` and the TEMP/TMP variables are passed in as values. The constructor is also given the table an existing database file already holds.
- `deletedatabase` and `drop_table_meals`: neither is called by the routes, so they are not modelled.
- Utility.UnescapePostData: its precondition excludes inputs on which the '%' loop never ends (`LatePercentSpins` shows they exist). The source hangs on those; the model does not describe that behaviour.
- Utility.UnescapePostData: the source rewrites a `std::string&` in place; the model takes the string in and returns the new value.
- Database.MealTable.CreateTableIfNotExist: seed lines must have three fields and a plain decimal second field that fits an `int` (`SeedLineOk`). Shorter lines are undefined behaviour in the source. The leading-whitespace and trailing-junk rules of `std::stoi`, and its exception on other input, are not modelled.
- Database.MealTable.constructor: seeds through `CreateTableIfNotExist` and carries its `SeedLineOk` requires, so a seed line such as "Taco, 3, 5.99", which `std::stoi` reads past the space, is outside the model.
- Server.Routes.constructor: carries the same `SeedLineOk` requires for the same reason.
- Database.MealTable.GetMealByName: returns the `Meal` value rather than a `DBMeal` object. The same holds for GetMealById and GetAllMeals, since the source returns copies.
- Server.Routes.GetMealByName: the name is decoded before the second limiter check, as in the source. Names on which decoding would hang are excluded by the same precondition as `UnescapePostData`.
