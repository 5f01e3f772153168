# Truck-driver training compliance: a verified model

This project models the bookkeeping of the truck-driver training dashboard API in
`backend/server.py`. It covers:

- the certification status rule;
- the driver, training-module, training-progress and certification handlers;
- the reports: dashboard summary, per-driver analytics, per-module performance and the compliance report;
- the expiring-certification list;
- the seeding of the default module catalog.

The document store is the class `Store.Store`. It holds four tables as sequences in insertion order.
- `Valid()` is the store's invariant: ids are unique in every table, and there is at most one progress record per (driver, module) pair.
- The handlers that write (`insert_one`, `update_one` with `$set` / `$inc`) are methods with `modifies this`.
- The handlers that loop and append to a result list are methods with loops. Each is proved against a specification function.
- The loops of the seeding and of the compliance report are methods over plain sequences. The store methods call them with the current tables.
- The handlers without loops are pure functions over the tables. They live in `Queries` and `Analytics`.

Dates are integer day numbers. ISO date strings sort in the same order, so the comparisons are preserved. The current day is a parameter `today`, and so are the fresh ids. Rates and averages are exact `real`s.

Modules, leaf to root:
- `Common`: options, results, filtering, sums and averages, percentages.
- `CertStatus`: the status rule.
- `Records`: documents, request bodies and how a request becomes a document.
- `Queries`: lookups and selections.
- `Analytics`: the reports.
- `Seeding`: what seeding a catalog adds to the module table, and the seeding loop.
- `Catalog`: the default catalog.
- `Store`: the stateful handlers.

Behaviour of the code worth noting, which the model keeps:
- The progress auto-date is filled in whenever the update itself omits the date, even if a date is already stored.
- A progress update that supplies any status, even the current one, increases `attempts` by one.
- `update_driver` and `delete_driver` also match inactive drivers. An update can reactivate a driver, and deleting an inactive driver succeeds.
- Training-module names are not checked for uniqueness on creation. Only seeding skips existing names.
- The dashboard's `drivers_with_expired_certifications` and `drivers_with_expiring_certifications` count certifications, not drivers.
- The expiring list has no lower date bound, so expired certifications are included. It keeps every certification whose driver record exists, active or not.
- Average scores skip completed records whose score is 0, because the source filters on the truthiness of `score`.
- An empty-string `driver_id` or `module_id` query parameter applies no filter.
- The per-driver analytics return certifications with the status stored at creation, not a recomputed one (see Findings).

## Model

| member | source | states |
|---|---|---|
| `CertStatus.StatusOf` | backend/server.py:185-194 | Expired iff expiry − today < 0, ExpiringSoon iff 0 ≤ expiry − today ≤ 30, Active iff expiry − today > 30 |
| `CertStatus.StatusByDate` | backend/server.py:185-194 | the three statuses are exhaustive and exclusive, each characterised by a date comparison |
| `CertStatus.ExpiresTodayIsExpiringSoon` | backend/server.py:190-191 | expiring today or 30 days ahead is ExpiringSoon, expiring yesterday is Expired, 31 days ahead is Active |
| `CertStatus.StatusNeverImproves` | backend/server.py:185-194 | as the day advances the status moves only Active → ExpiringSoon → Expired |
| `Common.Percentage` | backend/server.py:390 | completed/total×100 lies in [0, 100]; it is 0 when total is 0; otherwise it is 100 exactly when all are completed and 0 exactly when none are |
| `Records.NewDriver` | backend/server.py:199-204 | a created driver carries the given id and every field of the request unchanged, and is active |
| `Records.ApplyDriverUpdate` | backend/server.py:218-226 | each supplied (non-null) field overwrites the stored one, every other field is kept, id, employee id, hire date and birth date never change; an all-null update changes nothing |
| `Records.DriverUpdateIdempotent` | backend/server.py:218-226 | applying the same driver update twice equals applying it once |
| `Records.NewModule` | backend/server.py:119-126 | supplied fields are kept; omitted ones take the defaults: required score 80, mandatory, no prerequisites |
| `Records.EffectiveUpdate` | backend/server.py:293-302 | the fields written by a progress update: the supplied ones, plus today as the completion date when completing and as the start date when starting, unless the request carries that date; no other date is filled in |
| `Records.NewProgress` | backend/server.py:141-144 | a new record has the request's pair, status defaulting to not started, attempts 0 and no dates, score or notes |
| `Records.UpdatedProgress` | backend/server.py:293-314 | attempts rises by exactly 1 iff a status is supplied; supplied fields overwrite; completed without a completion date sets it to today; in progress without a start date sets it to today; all else kept |
| `Records.NewCertification` | backend/server.py:323-329 | every request field is copied under the new id, and the stored status is the status rule's verdict on the day of creation |
| `Records.Refreshed` | backend/server.py:339-340 | only the status changes, and it becomes the status rule's verdict for today |
| `Records.RefreshedAll` | backend/server.py:339-342 | a listing keeps its length and order, and each entry differs from the stored one only in its recomputed status |
| `Queries.ActiveDrivers` | backend/server.py:206-209 | the listing holds exactly the active drivers |
| `Queries.GetDriver` | backend/server.py:211-216 | a found driver is stored, active and has the id; NotFound iff every stored driver with the id is inactive |
| `Queries.GetDriverFindsActive` | backend/server.py:211-216 | with unique ids, lookup returns the driver exactly when it is active, otherwise NotFound |
| `Queries.GetTrainingModule` | backend/server.py:257-262 | NotFound iff no module has the id; otherwise a stored module with that id |
| `Queries.ModuleName` | backend/server.py:452 | the name of a module with that id, or "Unknown Module" when there is none |
| `Queries.MandatoryModules` | backend/server.py:519 | exactly the modules flagged mandatory |
| `Queries.ProgressOfDriver` | backend/server.py:417 | exactly the records of the driver |
| `Queries.ProgressOfModule` | backend/server.py:467 | exactly the records of the module |
| `Queries.WithStatus` | backend/server.py:426-429 | exactly the records with the given status |
| `Queries.ListProgress` | backend/server.py:280-289 | exactly the records matching each non-empty filter; no filters return the whole table |
| `Queries.StatusPartition` | backend/server.py:425-429 | the five per-status counts add up to the number of records |
| `Queries.CompletedScores` | backend/server.py:487-488 | the scores of the completed records with a non-zero score, in record order, each non-zero; no more than the completed records |
| `Queries.NonZeroAttempts` | backend/server.py:489 | the attempts counts of the records whose count is non-zero, in record order, each ≥ 1 |
| `Queries.CertificationsOfDriver` | backend/server.py:529 | exactly the certifications of the driver |
| `Queries.CertificationQuery` | backend/server.py:331-336 | exactly the certifications of the driver when the filter is non-empty, else all |
| `Queries.ExpiredCertifications` | backend/server.py:376-378 | exactly the certifications with expiry before today |
| `Queries.ExpiringCertifications` | backend/server.py:380-385 | exactly the certifications with today ≤ expiry ≤ today + 30 |
| `Queries.ExpiredAndExpiringDisjoint` | backend/server.py:376-385 | the expired and expiring counts together never exceed the number of certifications |
| `Queries.DateComparisonsMatchStatus` | backend/server.py:376-385 | the inline date comparisons select exactly what the status rule calls Expired and ExpiringSoon |
| `Analytics.RecentCompletions` | backend/server.py:393-397 | exactly the completed records whose completion date is at most 30 days back |
| `Analytics.Dashboard` | backend/server.py:363-407 | total drivers = active drivers = active count; the expired, expiring and recent figures are the sizes of those selections, expired + expiring ≤ certifications and recent ≤ completed; the rate is in [0, 100], 0 with no records, otherwise completed/total×100 |
| `Analytics.DashboardMatchesStatusRule` | backend/server.py:372-385 | the two certification figures equal the numbers the status rule classifies Expired and ExpiringSoon |
| `Analytics.TrainingStatsOf` | backend/server.py:425-447 | each bucket counts the records of its status, and the four add up to the total minus the expired-status records; the rate is completed/total×100 (0 with no records); the average is the mean of the non-zero completed scores, 0 when there are none |
| `Analytics.ZeroScoreLeftOut` | backend/server.py:432-433 | a completion scored 0 is left out: one scored 0 and one scored 100 average 100, with rate 100 |
| `Analytics.SingleScoredCompletion` | backend/server.py:425-447 | one assigned module completed with score 95 gives total 1, completed 1, rate 100, average 95 |
| `Analytics.ProgressDetails` | backend/server.py:449-455 | one detail per record, in order, carrying the record and the name of its module, or "Unknown Module" when the module is missing |
| `Analytics.DriverProgressAnalytics` | backend/server.py:409-457 | NotFound iff the driver is missing or inactive; otherwise the active driver, the statistics and details of exactly its records, and exactly its certifications |
| `Analytics.CurrentDriverProgressAnalytics` | backend/server.py:436-456 | the stored-status report with only its certifications replaced by their recomputed listing: each is the driver's, with today's status, and every certification of the driver appears (the corrected reading) |
| `Analytics.RefreshedAllContains` | backend/server.py:339-340 | a refreshed listing holds exactly the refreshed stored certifications |
| `Analytics.StoredStatusGoesStale` | backend/server.py:436-456 | a certification created on day 0 expiring on day 40 is still reported Active on day 50; the corrected report says Expired |
| `Analytics.ModuleStatsOf` | backend/server.py:483-501 | total and completed count match the records; the rate is completed/total×100; the average score is the mean of the non-zero completed scores; average attempts is the mean of the non-zero attempts counts, so 0 or at least 1 |
| `Analytics.ZeroStatsAreStatsOfNothing` | backend/server.py:469-480 | the early return's zero block is what the general statistics give for no records |
| `Analytics.ModulePerformance` | backend/server.py:459-504 | NotFound iff no module has the id; with no records the stats are all zero and the distribution empty; otherwise the stats are those of its records and the distribution is their non-zero completed scores |
| `Analytics.AverageScoreWithinScores` | backend/server.py:432-433 | when some completion is scored, the average score lies within the bounds of the recorded scores |
| `Analytics.CompletedMandatory` | backend/server.py:521-525 | exactly the driver's completed records whose module is a mandatory module |
| `Analytics.ComplianceEntryFor` | backend/server.py:514-547 | license Expired iff its expiry is before today; Non-Compliant iff expired certifications > 0, the license expired, or completed mandatory < total mandatory |
| `Analytics.MandatoryCompletionBound` | backend/server.py:521-526 | with one record per pair and unique module ids, completed mandatory ≤ total mandatory, with equality iff every mandatory module has a completed record of the driver |
| `Analytics.ComplianceVerdict` | backend/server.py:521-540 | a driver is Compliant iff no certification of theirs expired, the license has not expired, and every mandatory module is completed |
| `Analytics.DriverName` | backend/server.py:355-357 | "first last" of a driver with that id, active or not, and none iff no driver has it |
| `Analytics.ExpiringRows` | backend/server.py:352-358 | one row per selected certification whose driver exists, in order, with recomputed status and that driver's name |
| `Analytics.ExpiringRowsSnoc` | backend/server.py:353-358 | handling one more certification appends its row exactly when its driver exists |
| `Analytics.DueCertifications` | backend/server.py:346-349 | exactly the certifications expiring no later than today + 30 |
| `Analytics.ExpiringRowsAreNotActive` | backend/server.py:344-360 | every row has its status recomputed, is not Active and has a known driver; every due certification with a known driver appears |
| `Catalog.DefaultCatalogShape` | backend/server.py:555-620 | eight modules under distinct names, all mandatory except hazardous materials, required scores set between 80 and 95 |
| `Seeding.Seeded` | backend/server.py:622-629 | the modules the seeding loop creates: at most one per catalog entry, each under one of the given ids and with a name that was not already present |
| `Seeding.SeededNames` | backend/server.py:622-629 | the created names are exactly the catalog names not already present, none twice |
| `Seeding.SeededFromCatalog` | backend/server.py:622-629 | every created module is a catalog entry under its own id |
| `Seeding.NothingToSeed` | backend/server.py:622-629 | when every catalog name is present nothing is created |
| `Seeding.SeedingOutcome` | backend/server.py:622-629 | after seeding every catalog name is present, and nothing is created when all were present before |
| `Seeding.SeedModules` | backend/server.py:622-629 | the loop creates exactly the modules `Seeded` describes, and module ids stay distinct across the old and the new modules |
| `Seeding.SeedingIdempotent` | backend/server.py:552-631 | seeding a second time creates no module |
| `Store.Store.CreateDriver` | backend/server.py:199-204 | appends exactly the new active driver, which lookup then finds; other tables unchanged; the invariant is kept |
| `Store.Store.UpdateDriver` | backend/server.py:218-232 | NotFound iff no driver has the id, then nothing changes; otherwise exactly that driver is replaced by its merged update |
| `Store.Store.DeleteDriver` | backend/server.py:234-242 | NotFound iff no driver has the id; otherwise only its active flag is cleared, the record stays, lookup fails NotFound and the listing omits it |
| `Store.Store.CreateTrainingModule` | backend/server.py:245-250 | appends exactly the new module with its defaults |
| `Store.Store.InitializeDefaultModules` | backend/server.py:552-631 | appends the catalog entries whose name was absent, in order, and returns them; afterwards every catalog name is present; nothing is created when all were present |
| `Store.Store.SeedCatalog` | backend/server.py:622-629 | appends to the module table exactly the modules seeding creates, in catalog order, and returns them; afterwards every catalog name is present; nothing is created when all were present; the other tables are unchanged |
| `Store.Store.CreateProgress` | backend/server.py:265-278 | Conflict iff the pair already has a record, then nothing changes; otherwise exactly one record is appended; at most one record per pair is kept |
| `Store.Store.UpdateProgress` | backend/server.py:291-321 | NotFound iff no record has the id, then nothing changes; otherwise exactly that record becomes its update |
| `Store.Store.CreateCertification` | backend/server.py:323-329 | appends exactly the new certification with its status for the day of creation |
| `Store.Store.GetCertifications` | backend/server.py:331-342 | the selected certifications in order, each with its status recomputed for today |
| `Store.Store.ExpiringCertificationList` | backend/server.py:344-360 | the rows of the due certifications whose driver exists, in order, with recomputed status and driver name |
| `Store.Store.ComplianceReport` | backend/server.py:506-550 | one verdict per active driver, in listing order, each with completed mandatory ≤ total mandatory |
| `Store.ComplianceEntryList` | backend/server.py:511-547 | the loop appends the verdict on each driver, in order |
| `Analytics.ComplianceEntries` | backend/server.py:511-548 | one verdict per driver of the listing, in order: as many entries as drivers, entry `k` being the verdict on driver `k` (stated by `Analytics.ComplianceEntriesAt`) |
| `Analytics.ComplianceEntriesAt` | backend/server.py:511-547 | entry `k` of the report is the verdict on driver `k` |

## Findings

| source | as written | input that shows it | evidently intended | confidence | as-written member | corrected member |
|---|---|---|---|---|---|---|
| backend/server.py:436-456 | the driver-analytics report returns each certification with the status stored when it was created | a certification created on day 0 that expires on day 40, read on day 50: reported Active, though expired for 10 days | the status recomputed for the day of the read, as the certification listing does at lines 339-340 | medium, not executed | `Analytics.StoredStatusGoesStale` | `Analytics.CurrentDriverProgressAnalytics` |

## Left out

- HTTP routing, CORS, environment configuration, logging, the root endpoint and the shutdown hook. These are framework plumbing.
- The asynchronous Motor client. Calls are sequential, and a handler's reads see one consistent state.
- The non-atomic read-then-write in progress creation. Concurrency is not modelled; under sequential calls the pair check is exact.
- The `to_list(1000)` cap. The model reads whole tables.
- `round(…, 2)` and floating point. Rates and averages are exact reals.
- `uuid4` ids, `utcnow` timestamps and `date.today()`. Ids and `today` are parameters, and the `created_at` / `updated_at` stamps are not modelled.
- Pydantic validation and coercion. Enumerations are datatypes, and field ranges such as a score of 0–100 are not checked by the source either.
- The string form `"completed/total"` of the mandatory completion. The model keeps the two numbers.
- The list endpoint for training modules. It returns the table unchanged.
- Store.Store.SeedCatalog: the created modules are computed by the seeding loop and then appended to the table in one step, not inserted one by one. The table after the call is the same.
- Analytics.DriverProgressAnalytics: looks a module name up in the whole module table. The source builds a dictionary of the referenced modules, where a later duplicate id would win. With unique ids the two agree.
