# Sustainable Business Analytics: a verified model of the dashboard's core

This project models, in Dafny, the logic of a Streamlit dashboard that lists
sustainable businesses stored in a SQL database. It covers five parts:

- **Listing pipeline.** The `businesses` table is modelled as a sequence in
  storage order. It covers the retry wrapper, the CSV ingest (deduplicate on
  brand name, split certifications, skip failing rows), the distinct
  state/city/category lists and the top-5 category summary. It also covers
  the filtered and paginated listing and the radius search around a point.
- **Interaction history.** Tracking an interaction appends a row or is
  swallowed. The 30-day window of a user's interactions is turned into
  category counts, searched states and the last-five description string. The
  top-3 ranking, the no-history default and the three-key display projection
  are modelled too.
- **Accounts.** This part covers the `salt$digest` password format and its
  verification round trip. It covers registration with its email and
  username checks, and login, logout and the session record.
- **Achievements.** The four seed badges are seeded insert-or-skip into a
  table unique on name. Reading them back projects each row.
- **Dashboard script.** This part models:
  - how the sidebar widgets become the filter map;
  - the page count;
  - the grid loops;
  - the city list of the location search;
  - the badge sections and columns;
  - the minimum-score restriction of the nearby results;
  - the rule that regenerates recommendations only when the stored timestamp
    is None.

Foreign code is passed in as function parameters:

- the geodesic distance;
- PBKDF2;
- the language-model call;
- the outcome of the database operations whose failure the code handles:
  `init_database`'s DELETE and the commit of each ingested row, the commits
  and the history query of the interaction log, and the commits of
  registration, login and achievement seeding. The read queries of
  `get_metrics_summary`, the `get_unique_*` functions and
  `load_fashion_data` are modelled on a database that answers.

Timestamps are integers passed in as `now`. Each module has its own file:

| file | module | models |
|---|---|---|
| `common.dfy` | `Common` | shared helpers: filter, distinct, sort, top-k, split and join |
| `data_processor.dfy` | `DataProcessor` | `utils/data_processor.py` |
| `recommendations.dfy` | `Recommendations` | `utils/recommendations.py` |
| `auth.dfy` | `Auth` | `utils/auth.py` |
| `achievements.dfy` | `Achievements` | `utils/achievements.py` |
| `dashboard.dfy` | `Dashboard` | `app.py` |

The record shapes come from `models/database.py`. Where the code does
something, the model follows the code. In particular, the code keeps no cache
of query results, and so the model has none.

## Model

| member | source | states |
|---|---|---|
| DataProcessor.RetryOnDbError | utils/data_processor.py:11-26 | If `max_retries <= 0`, nothing is called and None is returned. Otherwise there are 1 to `max_retries` calls, and every call before the last raised a database error. The outcome is one of: the last call's value; its non-database exception, re-raised at once; or the database error, re-raised after exactly `max_retries` failures. |
| DataProcessor.Certifications | utils/data_processor.py:62 | A missing cell gives `[]`. A present cell is cut at every `\|`: a non-empty list of pieces, none holding a `\|`, whose `\|`-join is the cell. |
| DataProcessor.IngestedSpec | utils/data_processor.py:55-88 | The committed businesses are exactly the rows that convert and whose commit the database accepts, each with its own columns and the id it drew, in row order (ids increase). A row whose commit is refused is rolled back and skipped but has used up its id; a row whose conversion fails draws none. |
| DataProcessor.IngestedWithoutRefusals | utils/data_processor.py:55-88 | When no commit is refused, the committed businesses are the convertible rows, in order, with consecutive ids from the first id. |
| DataProcessor.DrawnIdGrows | utils/data_processor.py:55-76 | A row that reaches the INSERT draws a smaller id than every later row. |
| DataProcessor.DeduplicatedIngestUnique | utils/data_processor.py:47-88 | After keeping the first row per brand name, no two committed businesses share a brand name, whichever commits are refused. So the unique constraint never rejects a row. |
| DataProcessor.InsertRows | utils/data_processor.py:51-88 | The insert loop commits exactly the ingest of the deduplicated rows under the given commit refusals. `successful_inserts` equals the number committed, and the next id is past one id per convertible row, refused or not. |
| DataProcessor.BusinessTable.InitDatabase | utils/data_processor.py:29-97 | A refused DELETE (rows of other tables still reference a business) gives False and leaves the table as it was. A missing CSV gives False and an empty table. Otherwise the table is cleared and then holds exactly the ingest of the deduplicated CSV under the commit refusals, with brand names unique. The result is then True, the insert count equals the table size, and the next id has moved past one id per convertible row. |
| DataProcessor.UniqueValues | utils/data_processor.py:135-160 | The result is sorted ascending and has no duplicates. It holds exactly the non-empty values of the column. |
| DataProcessor.UniqueStates | utils/data_processor.py:135-140 | Sorted and distinct. It holds exactly the non-empty states that some business has. |
| DataProcessor.UniqueCities | utils/data_processor.py:145-150 | Sorted and distinct. It holds exactly the non-empty cities that some business has. |
| DataProcessor.UniqueCategories | utils/data_processor.py:155-160 | Sorted and distinct. It holds exactly the non-empty categories that some business has. |
| DataProcessor.CategoryCounts | utils/data_processor.py:111-120 | The grouped query: one pair per distinct stored category, with its row count, and every stored category appears. |
| DataProcessor.TopCategories | utils/data_processor.py:111-122 | Five categories, or all of them when there are fewer, each with its true positive row count. No category left out has more rows than one kept. |
| DataProcessor.MetricsSummary | utils/data_processor.py:100-130 | The total is the number of rows, the state coverage is the number of distinct states, and the top categories are as above. |
| DataProcessor.MatchingRows | utils/data_processor.py:176-190 | A row is kept exactly when it is stored and meets every filter given. Each kept row keeps its multiplicity. |
| DataProcessor.FalsyFiltersIgnored | utils/data_processor.py:176-187 | Filters whose values are all falsy (None, "", 0) select the whole table. A maximum score of 0 is one of these. |
| DataProcessor.PageOf | utils/data_processor.py:193 | A negative offset or limit is an error. Otherwise the page is the slice of at most `per_page` rows from `(page-1)*per_page`, and it is empty past the end. |
| DataProcessor.LoadFashionData | utils/data_processor.py:165-220 | `total_count` is the number of matching rows, and the rows are that page of the matching rows. |
| DataProcessor.ListedRowsMatch | utils/data_processor.py:176-193 | Every listed row is stored and meets every filter given. |
| DataProcessor.TotalIndependentOfPage | utils/data_processor.py:190-193 | `total_count` does not depend on `page` or `per_page`. A page past the end is empty. |
| DataProcessor.PagesAreConsecutive | utils/data_processor.py:193 | Pages 1..k together are the first `k*per_page` matching rows, so pages are disjoint and leave no gap. |
| DataProcessor.WithDistances | utils/data_processor.py:244-247 | The distance column: each row paired with its distance in miles from the point. |
| DataProcessor.NearbyBusinesses | utils/data_processor.py:237-256 | An empty frame gives an empty result. Otherwise the result is a permutation of the rows within the radius, sorted nearest first. A row is listed exactly when it is within the radius. |
| Recommendations.Recorded | utils/recommendations.py:82-96 | The row stores the user, the type, the time, and each data field that is present. |
| Recommendations.InteractionLog.Track | utils/recommendations.py:70-106 | The row is appended when the business id converts and the commit succeeds. Otherwise the log is unchanged and nothing is raised. |
| Recommendations.Window | utils/recommendations.py:116-126 | The window holds exactly the user's interactions from the last 30 days, each as often as stored, newest first. |
| Recommendations.InteractionLog.History | utils/recommendations.py:108-188 | The result is the history function of the current rows: a failing query gives the error history, and an empty window gives the new-user history. Otherwise the history summarises the window. |
| Recommendations.Aggregate | utils/recommendations.py:140-175 | The loop computes the window's summary, which summarises the window: <br>• the count keys are the distinct truthy categories, in the order the window first shows them; <br>• each count is the number of interactions with that category; <br>• the categories viewed are the count keys; <br>• the searched states are the distinct non-empty states; <br>• the description string joins the last five descriptions. |
| Recommendations.Bump | utils/recommendations.py:147-148 | One `category_counts[c] += 1`. A new key goes at the end, and only `c`'s count grows. |
| Recommendations.StatesOf | utils/recommendations.py:149-171 | The states searched: exactly the non-empty states in the window. |
| Recommendations.CategoryCountPermutation | utils/recommendations.py:146-148 | Category counts do not depend on the order of the window. |
| Recommendations.TrackedInteractionCounted | utils/recommendations.py:70-148 | An interaction tracked now is in its user's window, and it raises its category's count by one. |
| Recommendations.CountsOfMatches | utils/recommendations.py:141-148 | The counting dictionary built over a window counts each truthy category of it, and its keys are the distinct truthy categories in first-seen order. |
| Recommendations.SummaryDescribesWindow | utils/recommendations.py:140-172 | The summary of a window meets every promise of the aggregation listed for `Aggregate`. |
| Recommendations.LastDescriptionsAreOldest | utils/recommendations.py:155-168 | The last five descriptions are those of a suffix of the window. Since the window is newest first, that suffix holds its oldest interactions. |
| Recommendations.MostViewed | utils/recommendations.py:218-220 | Three pairs, or all of them when there are fewer, each from the counts, in non-increasing count order. No count left out is above one kept. |
| Recommendations.MostViewedRanksWindow | utils/recommendations.py:140-220 | Three distinct categories are listed, or all of them when fewer were viewed. Each has its true positive count in the window. No other category in the window has more views. |
| Recommendations.PromptOf | utils/recommendations.py:234-240 | The prompt carries the history string and the most viewed categories joined by ", ". Its states field is the joined states, or "None yet" when that is empty. |
| Recommendations.Generate | utils/recommendations.py:190-273 | With no categories viewed, the answer is the getting-started one. Otherwise it is the model's answer, or the fallback when the model fails. |
| Recommendations.NoHistoryGetsStarted | utils/recommendations.py:130-216 | The new-user and error histories both get the getting-started answer, whatever the model would say. |
| Recommendations.FormatForDisplay | utils/recommendations.py:275-292 | The result has exactly the three display keys, each holding the input's value or `[]`. |
| Recommendations.FormatKeepsThreeKeyAnswers | utils/recommendations.py:261-292 | Formatting is idempotent and leaves the default and fallback answers unchanged. |
| Auth.Hex | utils/auth.py:18 | `bytes.hex()` gives two lower-case hex digits per byte. |
| Auth.HexInjective | utils/auth.py:18-30 | Different digests give different hex strings. |
| Auth.HashPassword | utils/auth.py:9-18 | The stored string is the 16-character salt, then `$`, then the hex digest of the password under that salt. Splitting on `$` gives back exactly those two parts. |
| Auth.VerifyPassword | utils/auth.py:20-30 | Raises (None) exactly when there is no `$` or the salt is not ASCII. Otherwise True exactly when the hex digest of the provided password under the stored salt equals the stored digest. |
| Auth.HashVerifyRoundTrip | utils/auth.py:9-30 | A hashed password verifies against itself. Another password verifies exactly when its digest under the same salt is the same. |
| Auth.UserWithEmail | utils/auth.py:45 | Finds a user exactly when one has that email. |
| Auth.RegisteredUserCanLogIn | utils/auth.py:41-99 | A user registered with a fresh email is the one login finds, and the password they registered with verifies. |
| Auth.UserTable.Register | utils/auth.py:69-99 | A taken email is refused first, then a taken username. A failing commit is an error. Only a successful registration appends the new user with the next id, and the unique constraints keep holding. |
| Auth.WithDefaults | utils/auth.py:32-39 | Adds `authenticated=False`, `user=None` and `last_recommendation_time=None` only where a key is missing, and keeps every other entry. |
| Auth.WithDefaultsIdempotent | utils/auth.py:32-39 | Initialising twice is the same as initialising once. |
| Auth.CurrentUser | utils/auth.py:107-110 | None unless `authenticated` is truthy. Then the stored user, or an error when the key is missing. |
| Auth.SessionTransitions | utils/auth.py:53-110 | After login the current user is the one who logged in. After logout there is none. Both clear the recommendation timestamp. |
| Auth.SessionState.Init | utils/auth.py:32-39 | The session becomes its defaults. |
| Auth.SessionState.Logout | utils/auth.py:101-105 | The session becomes logged out. |
| Auth.Touch | utils/auth.py:49-50 | Only the logged-in user's `last_login` changes. |
| Auth.Login | utils/auth.py:41-67 | Succeeds exactly when a user has the email, the password verifies and the commit succeeds. Then `last_login` is set and the session is logged in. Otherwise neither the table nor the session changes. |
| Achievements.InitialAchievementsWellFormed | utils/achievements.py:20-57 | The four seed names are distinct. Every seed has a badge category, a positive level and positive points. |
| Achievements.InsertOrSkip | utils/achievements.py:62-72 | A seed is appended exactly when its name is new and its insert does not fail. Otherwise the table is unchanged. |
| Achievements.SeededExtends | utils/achievements.py:59-73 | Seeding never changes or removes a row, and it adds only seeds. |
| Achievements.SeededNamesUnique | utils/achievements.py:59-73 | Names stay unique. |
| Achievements.SeedsPresent | utils/achievements.py:59-73 | Every seed whose insert does not fail is present afterwards. |
| Achievements.SeedingIdempotent | utils/achievements.py:59-73 | After a run without failures, seeding again changes nothing. |
| Achievements.SeedingDistinctStoresAll | utils/achievements.py:59-73 | Seeding an empty table with pairwise distinct names and no failing insert stores every seed, in order. |
| Achievements.AchievementTable.InitializeAchievements | utils/achievements.py:59-73 | The loop leaves the table as insert-or-skip of each seed in order. |
| Achievements.AllAchievements | utils/achievements.py:75-88 | One projected entry per row, in order. |
| Achievements.FreshSeedingListsSeeds | utils/achievements.py:20-88 | Seeding an empty table stores the four seeds in order, and reading back lists them. |
| Dashboard.AppStart | app.py:33-35 | The session holds its defaults. The second default for the timestamp never applies. |
| Dashboard.WidgetFilters | app.py:89-132 | `search` is present only for non-empty text. `state` and `category` are present only when the choice is not the "All" sentinel. `min_score` is present only when > 0, and `max_score` only when < 100. |
| Dashboard.WidgetFiltersSelect | app.py:89-132 | A business is listed exactly when it matches the search text, the chosen state, the chosen category and the slider range. A sentinel, and a maximum of 0, constrain nothing. |
| Dashboard.InitialWidgetsSelectAll | app.py:89-132 | The initial widget values give no filter and list every business. |
| Dashboard.SidebarFilters | app.py:89-132 | Builds the filter map. Choosing a category while signed in records a `filter_category` interaction. |
| Dashboard.PageCount | app.py:146 | The ceiling of `total_count / per_page`: 0 exactly when there are no rows, else the least `p` with `p*per_page >= total`. |
| Dashboard.PageCountCoversListing | app.py:146 | Pages 1..page count together list every matching row, the last of them is non-empty, and the page after them is empty. |
| Dashboard.GridOrder | app.py:202-206 | The grid loops (also those of app.py:435-439) visit each index `0..n-1` exactly once, in ascending order. |
| Dashboard.ExplorerGrid | app.py:202-206 | The three-column grid shows the page's businesses in order. |
| Dashboard.NearbyGrid | app.py:435-439 | The two-column grid shows the nearby businesses in order. |
| Dashboard.CityStatesLastRow | app.py:280-284 | A city is in `city_state_map` exactly when a page row has it, and it maps to the state of its last such row. |
| Dashboard.EntriesMembers | app.py:287-291 | An entry is "city, state" exactly for a city of the table that is in the map. |
| Dashboard.BuildCityStateList | app.py:279-293 | The loops give the sorted entries, over the distinct cities of the table, for the map built from the page. |
| Dashboard.CityStateListContents | app.py:280-292 | The list is sorted. Each entry is "city, state" for a table city present in the page, using the state of the last page row of that city. |
| Dashboard.SplitCityState | app.py:309 | Unpacking succeeds exactly when there are two parts, and joining them gives back the entry. |
| Dashboard.SplitCityStateRoundTrip | app.py:309 | When neither name contains ", ", splitting an entry recovers its city and state. |
| Dashboard.BadgeSection | app.py:479 | A section holds exactly the achievements of its category, as often as stored. |
| Dashboard.SectionsPartitionBadges | app.py:474-483 | A badge of one of the three categories is in exactly one section, and other badges are in none. |
| Dashboard.ColumnsShowEachBadgeOnce | app.py:487-490 | The badge at position `idx` is in column `idx mod n`, and every badge in a column comes from the section. The columns hold as many badges as the section. |
| Dashboard.LayoutBadges | app.py:485-491 | `min(3, count)` columns, each holding the badges whose position modulo that count is its index, in order. |
| Dashboard.ViewBusiness | app.py:242-254 | One run of a business's details expander body. While signed in, the view is recorded and the timestamp is reset to None. Signed out, nothing changes. |
| Dashboard.ViewsRecorded | app.py:202-254 | Each business of the page whose commit succeeds has its view in the list, and the list holds nothing else. |
| Dashboard.ExplorerTab | app.py:202-256 | One run of the explorer grid runs every expander body. Signed in, the log gains the views of the page's businesses, and a non-empty page clears the timestamp. Signed out, nothing changes. |
| Dashboard.RestrictByMinScore | app.py:403-404 | Applied only when the slider is > 0, and then it keeps exactly the results with at least that score. The order stays nearest first. |
| Dashboard.SearchNearby | app.py:387-404 | Shows exactly the businesses within the radius that pass the minimum score, nearest first. When there are any and the user is signed in, the state and score of a nearest one are recorded. |
| Dashboard.RecommendationsTab | app.py:544-566 | If the timestamp is None, the shown recommendations are the formatted answer generated from the user's history of the current log. They are stored and stamped. Otherwise the stored ones are reused, or an error is raised when none are stored. |
| Dashboard.RefreshButton | app.py:597-598 | The timestamp is reset to None. |
| Dashboard.CacheInvariantPreserved | app.py:548-566 | Initialising (app.py:33-35), login, logout, viewing a business (app.py:254) and refreshing (app.py:598) all keep stored recommendations beside any set timestamp. So the raising branch is never taken. |

## Left out

- Streamlit rendering, layout, charts, the injected geolocation page and the `st.error`/`st.stop` control flow are not modelled. They are UI.
- The geodesic and haversine numerics are not modelled. Distance is a function parameter, the kilometre radius computed in `get_nearby_businesses` is never used, and `get_coordinates_from_city` is not part of this model.
- NearbyBusinesses: the source adds the `distance` column to the caller's data frame in place. The model returns new values and does not capture that aliasing.
- The average scores (`avg_sustainability`, `avg_eco_score`, `avg_sustainability_score`) are not modelled. They are floating-point means. The pandas sort of the explorer tab is left out too.
- PBKDF2 and `secrets.token_hex` are parameters. The salt is any 16-digit hex string, and the digest is a deterministic byte function.
- Reading the CSV file, `time.sleep` in the retry loop and the wall clock are I/O. Rows, the database failures listed above and `now` are parameters.
- MatchingRows: the listing query has no `ORDER BY`, so the database may return the matching rows in any order. The model returns them in storage order, and its contract states membership and multiplicity only.
- MatchingRows: the search is ASCII case-insensitive substring matching. `ILIKE` collation and `%`/`_` wildcards in the search text are not modelled.
- The language-model call and the parsing of its JSON reply are one parameter returning an answer or nothing. The prompt's `category_counts` JSON text, the numpy encoder and logging are left out.
- Nullable text columns (city, state, category) are strings, with NULL and "" treated alike. The SQL count of distinct states counts a stored "" state, which the model does not.
- Sort ties: rows at equal distance, and interactions with equal timestamps, keep their storage order. SQL and pandas leave that order unspecified.
- Aggregate: `list(set(states))` has no specified order. The model lists the distinct states in first-seen order.
- Achievement ids and the SVG markup of the icons are not modelled. Icons are an enumeration.
- The `VARCHAR(2)` length of `state` and other column widths are not modelled as checks. A row the database refuses for them is one of the refused commits that `InitDatabase` takes as a parameter.
- MetricsSummary, UniqueValues, LoadFashionData: a failing query raises, and `retry_on_db_error` retries and re-raises it (modelled once, generically, by `RetryOnDbError`). These members model a query that answers and have no error result.
- The city list is built only on the first visit of a session and then reused. The model builds it from the page it is given.
- Concurrency between sessions and database transactions across users are not modelled.
- ViewBusiness: Streamlit reruns the whole script on each interaction and runs every tab body and every expander body, open or not. A whole script run is not modelled as one member. `ExplorerTab` models the explorer tab's part of a run. It shows that, while signed in with a non-empty page, every run records a view of every business on the page and clears the timestamp before the recommendations tab (app.py:548) reads it. So the reuse branch (app.py:565-566) is reached only when the explorer page is empty.
- RecommendationsTab: `generate_recommendations` and `format_recommendations_for_display` catch every exception themselves. So the tab's own error branch (app.py:556-562) is not reachable in the model and is left out.
- SearchNearby: the surrounding code that picks the search point (city lookup, current location, map) is UI and not modelled.
