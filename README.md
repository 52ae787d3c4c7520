# Nebula streaming backend — a Dafny model

This project models the core of a Qt/C++ video-streaming application: its
catalog cache, its sign-up and log-in service, and the backend object the user
interface calls. It covers the following parts:

- **The catalog cache.** `StreamingService` keeps the featured item and the
  categories it last loaded from a data provider. It drops empty categories,
  falls back to the first listed item when there is no featured item, and
  formats running times as `"1h 30m"`.
- **The SQL data provider.** `QtSqlDataProvider` makes the hero query and the
  per-genre queries.
- **The legacy loader.** `StreamingDataModel` is an older loader that reads
  the same tables directly.
- **Sign-up and log-in.** `AuthService` validates the form and delegates to
  the `QtAuthRepository` of stored users, including the seeded `admin`
  account.
- **The backend write paths.** `Backend` adds genres and movies, copies media
  files into storage, keeps a "My List", logs playback, subscribes to plans
  and assembles the user profile page.
- **Database utilities.** These are the SQL script runner and the
  media-path and file-URL helpers.

The store is modelled as in-memory tables:

- **Tables.** Each table is a `seq` of rows in creation order, so the newest
  row is the last one and `ORDER BY created_at` is table order.
- **Ids.** Row ids are 1, 2, 3, … (`Store.Valid`).
- **Queries.** Each query the services issue is a function in `Store`.
- **Writes.** Each write path is a function from the store before to the reply
  and the store after (module `Writes`).
- **Failing statements.** A statement that can fail is named by a `Fault` in a
  `faults` argument. A statement whose outcome the code does not check takes
  effect unless its fault is present.

These things become parameters:

- the clock: today's day number and the stamp of each media copy;
- the project root;
- the set of files that exist;
- whether the database opened.

Stateful objects are classes:

- `Catalog.StreamingService`;
- `LegacyModel.StreamingDataModel`;
- `App.Backend`, which holds the store in a field that its methods reassign.

Each method is proved equal to the specification function of its operation.
The `App.Backend` methods are the step-by-step rendering of the `Writes`
functions: each walks the same checks and statements on its store field, and
its contract is equality with the function, so what an operation promises is
proved once, about the function. The lemmas then state what the operations
promise. Among them:

- `FormatDuration` has a parser as its inverse.
- The media file name splits back into its base name, stamp and extension.
- Sign-up followed by log-in succeeds as a plain user.
- Adding the same title to My List twice fails with "Already in My List".
- Subscribing leaves exactly one active subscription when both statements
  succeed.
- The logged playback or added title shows at the head of the profile page.
- The script runner stops at the first failing statement.

Where the code and the system's design description disagree, the model follows
the code:

- **Featured genre.** The design describes the featured item's genre as the
  title's alphabetically first genre. The hero query does compute that as its
  tenth column, but both loaders read the ninth column, the video path, as the
  genre (`Backend.cpp:89`, `StreamingDataModel.cpp:50`).
  `SqlProvider.ServiceFeaturedGenre` and `LegacyModel.FeaturedFallback` state
  this.
- **Active subscriptions.** The design says a user should never be left with
  zero active subscriptions after subscribing. In the code, a failed insert
  after a successful deactivation leaves none
  (`Writes.SubscribeInsertFailureLeavesNone`). An unchecked failed
  deactivation followed by a successful insert leaves two
  (`Writes.SubscribeUncheckedDeactivate`).
- **Atomic profile creation.** The design presents lazy profile creation as
  part of one atomic add or log step. In the code, the created profile stays
  even when the title lookup that follows fails. A failed title insert in
  `addMovie` likewise leaves a newly created genre in place
  (`Writes.AddMovieTitleFailureKeepsGenre`).
- **Role parameter.** The design's `authenticate` has no role parameter. The
  code takes one and ignores it (`Auth.RoleIgnored`). A failed result carries
  an empty role, which the backend reports as `"user"`
  (`App.FailedAuthenticationReportsUser`).
- **Genre names.** The design treats a genre name as unique regardless of
  case, and `addGenre` checks it with `lower(name) = lower(?)`. `addMovie`
  looks the genre up with an exact `name = ?` (`Backend.cpp:478`) and
  inserts one on a miss, so a second genre differing only in case can appear
  (`Writes.AddMovieSplitsGenreCase`). The `genres` table definition is not
  part of this model, so whether a `NOCASE` or `UNIQUE` constraint would
  reject that insert is not known; the model lets it through. Findings below
  gives the corrected lookup.

Source paths below are relative to the repository root.

## Model

| member | source | states |
|---|---|---|
| Text.Trim | FinalProject/backend/Backend.cpp:23 | `QString::trimmed`: the result is the part of the input that starts where the leading blanks end, and every character cut off on either side is a Qt space. It neither starts nor ends with a Qt space, and it is empty exactly when the input is blank. |
| Text.TrimStart | FinalProject/backend/Backend.cpp:23 | The leading blanks are removed: what is removed is blank, and the rest does not start with a space. |
| Text.TrimEnd | FinalProject/backend/Backend.cpp:23 | The trailing blanks are removed: what is removed is blank, and the rest does not end with a space. |
| Text.TrimAssembles | FinalProject/backend/Backend.cpp:23 | Cutting the leading, then the trailing blanks leaves the middle with only blanks cut on either side, and leaves nothing exactly when the input is blank. |
| Text.TrimUnpadded | FinalProject/backend/Backend.cpp:414 | Trimming leaves a text without outer spaces unchanged. |
| Text.SqlLower | FinalProject/backend/Backend.cpp:422 | SQLite `lower()`: same length, and each character is lowered on its own. |
| Text.NatToString | FinalProject/core/StreamingService.cpp:76-92 | `std::to_string` of a non-negative int: a non-empty digit string without a leading zero unless the number is 0. |
| Text.ParseNatToString | FinalProject/core/StreamingService.cpp:76-92 | Reading a rendered numeral back gives the number. |
| Text.NatToStringInjective | FinalProject/core/StreamingService.cpp:76-92 | Different numbers render differently. |
| Collation.SortByProperties | FinalProject/backend/Backend.cpp:101 | `ORDER BY name`: the result is sorted by the key and is a permutation of the input. |
| Collation.InsertSortedProperties | FinalProject/backend/Backend.cpp:101 | Inserting into a sorted sequence keeps it sorted and adds exactly that element. |
| Collation.LexLeTotal | FinalProject/backend/Backend.cpp:101 | Any two names are ordered one way or the other. |
| Collation.LexLeTransitive | FinalProject/backend/Backend.cpp:101 | The name order is transitive. |
| Store.UserIdByEmail | FinalProject/backend/Backend.cpp:706-714 | `SELECT id FROM users WHERE email = ?`: the id of a user with that email, or none exactly when no user has it. |
| Store.OldestProfileId | FinalProject/backend/Backend.cpp:716-722 | The user's first-created profile: no earlier profile belongs to the user. None exactly when the user has no profile. |
| Store.NewestTitleIdByName | FinalProject/backend/Backend.cpp:738-746 | The newest title whose name matches case-insensitively: no later title matches. None exactly when no title matches. |
| Store.GenreIdCaseless | FinalProject/backend/Backend.cpp:420-421 | The id of a genre with that name up to ASCII case, or none exactly when no genre matches in any case. |
| Store.GenreIdByName | FinalProject/backend/Backend.cpp:477-481 | The id of a genre with exactly that name, or none exactly when there is none. |
| Store.PlanById | FinalProject/backend/Backend.cpp:847-855 | The plan with that id, or none exactly when no plan has it. |
| Store.RowOf | FinalProject/backend/Backend.cpp:128-134 | All nine selected columns: id, type, name, description, age rating, running time and accent colour as stored, then the thumbnail and video paths of the LEFT JOIN, or `''` for both when the title has no media row. |
| Store.HeroRow | FinalProject/backend/Backend.cpp:75-87 | The hero query has a row exactly when there is a title. |
| Store.GenresByNameProperties | FinalProject/backend/Backend.cpp:101 | The genre listing is sorted by name and holds exactly the stored genres. |
| Store.GenreTitleRowsLinked | FinalProject/backend/Backend.cpp:126-134 | The per-genre query yields the rows of exactly the titles linked to that genre. |
| QtFormat.MarkerAtFront | FinalProject/backend/Backend.cpp:47 | A `QString::arg` place marker is `%`, an optional `L`, and one or two digits: 2 to 4 characters. |
| QtFormat.RenderTokenize | FinalProject/backend/Backend.cpp:47 | Tokenizing a text loses nothing: rendering the tokens gives the text back. |
| QtFormat.Arg | FinalProject/backend/Backend.cpp:47 | `arg` on a text without markers returns it unchanged. |
| QtFormat.LowestMarker | FinalProject/backend/Backend.cpp:47 | The number `arg` replaces: none exactly when the text has no marker, otherwise the number of a marker present, with no marker present numbered lower. |
| QtFormat.ArgLeadingLowest | FinalProject/backend/Backend.cpp:47 | A leading one-digit marker numbered below every later marker is replaced by the argument, and the rest is kept. |
| QtFormat.ArgLastOfThree | FinalProject/backend/Backend.cpp:47 | `".%3".arg(c)` is `"." + c`: the last `arg` of the chain fills the extension. |
| QtFormat.ArgSecondAfterFirst | FinalProject/backend/Backend.cpp:47 | `(a + "_%2.%3").arg(b)` with `a` free of `%` is `a + "_" + b + ".%3"`: the next `arg` fills `%2` and leaves `%3`. |
| QtFormat.ArgAfterPercentFree | FinalProject/backend/Backend.cpp:47 | A prefix without `%` is kept, and `arg` acts on the rest. |
| QtFormat.ArgHoursMinutes | FinalProject/models/StreamingDataModel.cpp:117-133 | `"%1h %2m".arg(h).arg(m)` with `h` free of `%` is `h + "h " + m + "m"`. |
| QtFormat.ArgUnit | FinalProject/models/StreamingDataModel.cpp:117-133 | `"%1m".arg(d)` is `d + "m"` and `"%1h".arg(d)` is `d + "h"`: a lone `%1` before a unit letter takes the argument. |
| Catalog.FormatDurationRoundTrip | FinalProject/core/StreamingService.cpp:76-92 | The duration is empty exactly for non-positive minutes; otherwise parsing `"Xh Ym"` / `"Xh"` / `"Ym"` gives the minutes back. |
| Catalog.FormatDurationShapes | FinalProject/core/StreamingService.cpp:76-92 | The three shapes: minutes only below an hour, whole hours, and hours and minutes. |
| Catalog.FormatDurationExamples | FinalProject/core/StreamingService.cpp:76-92 | 45 is `"45m"`, 60 is `"1h"`, 90 is `"1h 30m"` and 125 is `"2h 5m"`. |
| Catalog.ParseHoursAndMinutes | FinalProject/core/StreamingService.cpp:90-91 | The hours-and-minutes shape reads back as the minutes. |
| Catalog.ParseWholeHours | FinalProject/core/StreamingService.cpp:90-91 | The whole-hours shape reads back as the minutes. |
| Catalog.ParseMinutesOnly | FinalProject/core/StreamingService.cpp:84-87 | The minutes-only shape reads back as the minutes. |
| Catalog.ToMediaItem | FinalProject/core/StreamingService.cpp:61-74 | Every field is copied, and the duration is `formatDuration` of the running time: it parses back to the minutes, or is empty for a non-positive time. |
| Catalog.FormatDuration | FinalProject/core/StreamingService.cpp:76-92 | `formatDuration` is empty exactly for non-positive minutes; otherwise it ends in `m` or `h`. `Catalog.FormatDurationRoundTrip` states its inverse. |
| Catalog.ParseDuration | FinalProject/core/StreamingService.cpp:76-92 | The inverse of `formatDuration`: a parsed duration is a non-negative number of minutes read from non-empty text. |
| Catalog.KeptIndicesOrdered | FinalProject/core/StreamingService.cpp:24-38 | The kept categories are in provider order, and every non-empty category is kept. |
| Catalog.CachedCategoriesSelect | FinalProject/core/StreamingService.cpp:24-38 | The cached categories are exactly the converted non-empty provider categories, in order. |
| Catalog.CachedCategoriesNonEmpty | FinalProject/core/StreamingService.cpp:34-37 | No cached category is empty. |
| Catalog.FeaturedSelection | FinalProject/core/StreamingService.cpp:40-48 | The featured item is the provider's if there is one; else the first item of the first kept category; else empty. |
| Catalog.NoProviderSnapshot | FinalProject/core/StreamingService.cpp:14-20 | Without a provider, reload leaves an empty item and no categories. |
| Catalog.StreamingService.constructor | FinalProject/core/StreamingService.cpp:6-10 | The service stores the provider and its state is the snapshot of one reload. |
| Catalog.StreamingService.Reload | FinalProject/core/StreamingService.cpp:12-49 | The new featured item and categories are the snapshot of the provider's output. |
| Catalog.StreamingService.ConvertRow | FinalProject/core/StreamingService.cpp:29-32 | The inner loop converts every item of a category in order. |
| Catalog.StreamingService.FeaturedItem | FinalProject/core/StreamingService.cpp:51-54 | Returns the cached featured item. |
| Catalog.StreamingService.Categories | FinalProject/core/StreamingService.cpp:56-59 | Returns the cached categories. |
| SqlProvider.FetchFeatured | FinalProject/backend/Backend.cpp:68-90 | None exactly when the connection is closed or there are no titles; otherwise the newest title, with its video path as genre. |
| SqlProvider.FeaturedGenreIsVideoPath | FinalProject/backend/Backend.cpp:89 | The featured item's genre is the newest title's stored video path (or `''`), and its video URL is that path as a file URL. |
| SqlProvider.GenreItems | FinalProject/backend/Backend.cpp:124-148 | One item per title linked to the genre. |
| SqlProvider.CategoriesForSound | FinalProject/backend/Backend.cpp:92-119 | `CategoriesFor`, the loop of `fetchCategories`: each listed category belongs to one of the genres and has items. |
| SqlProvider.CategoriesForComplete | FinalProject/backend/Backend.cpp:92-119 | `CategoriesFor`: every genre with items has its category listed. |
| SqlProvider.CategoriesForSorted | FinalProject/backend/Backend.cpp:101 | Genres in name order give categories in name order. |
| SqlProvider.ProviderCategoriesShape | FinalProject/backend/Backend.cpp:92-119 | `fetchCategories` (`ProviderCategories` on an open database) lists exactly the stored genres that have items, with their items, in name order; none is empty. |
| SqlProvider.ItemsForGenre | FinalProject/backend/Backend.cpp:124-148 | The method yields the genre's items. |
| SqlProvider.BuildRows | FinalProject/backend/Backend.cpp:142-145 | The row loop builds one item per row, in row order. |
| SqlProvider.FetchCategories | FinalProject/backend/Backend.cpp:92-119 | The genre loop yields the provider's categories, or none when the connection is closed. |
| SqlProvider.ServiceFeaturedGenre | FinalProject/backend/Backend.cpp:68-90 | Through the cache, the featured genre shown is the newest title's video path. |
| LegacyModel.LegacyFormatDuration | FinalProject/models/StreamingDataModel.cpp:117-133 | The legacy `arg`-based formatter equals `StreamingService::formatDuration` on every input. |
| LegacyModel.BuildLegacyItem | FinalProject/models/StreamingDataModel.cpp:77-90 | Title, description, rating, accent colour and both media paths are copied as stored, with no URL conversion; the genre is the caller's; the duration is the running time formatted as `StreamingService::formatDuration` does. |
| LegacyModel.LegacyItems | FinalProject/models/StreamingDataModel.cpp:92-115 | One item per linked title. |
| LegacyModel.LegacyMatchesProvider | FinalProject/models/StreamingDataModel.cpp:53-69 | The legacy loader lists the same categories as the SQL provider, in the same order and with the same item counts. |
| LegacyModel.LoadedCategories | FinalProject/models/StreamingDataModel.cpp:53-69 | Loaded categories are non-empty, in name order, and as many as the provider's. |
| LegacyModel.EarlyFailureLeavesEmpty | FinalProject/models/StreamingDataModel.cpp:25-37 | A database that is not ready leaves everything empty, and a failed genre listing leaves no categories. |
| LegacyModel.FeaturedFallback | FinalProject/models/StreamingDataModel.cpp:39-51 | A named hero stays. An unnamed one is replaced by the first item of the first category. The hero's genre is its video path. |
| LegacyModel.FallbackOnEmptyName | FinalProject/models/StreamingDataModel.cpp:71-74 | The legacy loader also replaces an existing hero whose name is empty, which the service does not. |
| LegacyModel.StreamingDataModel.constructor | FinalProject/models/StreamingDataModel.cpp:8-11 | The model's state is that of one `loadData`. |
| LegacyModel.StreamingDataModel.LoadData | FinalProject/models/StreamingDataModel.cpp:23-75 | The new featured item and categories are the loaded state of the store. |
| LegacyModel.StreamingDataModel.CategoriesFor | FinalProject/models/StreamingDataModel.cpp:53-69 | The genre loop appends a category for each genre with items, in the genres' order: the categories `LegacyCategoriesFor` gives. |
| LegacyModel.StreamingDataModel.ItemsForGenre | FinalProject/models/StreamingDataModel.cpp:92-115 | The row loop yields the genre's legacy items. |
| LegacyModel.StreamingDataModel.FeaturedItem | FinalProject/models/StreamingDataModel.cpp:13-16 | Returns the featured item. |
| LegacyModel.StreamingDataModel.Categories | FinalProject/models/StreamingDataModel.cpp:18-21 | Returns the categories. |
| DatabaseUtils.KindOf | FinalProject/shared/DatabaseUtils.cpp:74-86 | A line is a comment exactly when its trimmed text starts with `--` or `//`. It completes a statement exactly when it is not a comment and its trimmed text ends with `;`. |
| DatabaseUtils.CompletingLineNotBlank | FinalProject/shared/DatabaseUtils.cpp:84 | A completing line is not blank. |
| DatabaseUtils.Classify | FinalProject/shared/DatabaseUtils.cpp:71-75 | Every line is classified in order. |
| DatabaseUtils.CommentLineIgnored | FinalProject/shared/DatabaseUtils.cpp:76-79 | Removing a comment line does not change the statements. |
| DatabaseUtils.FlushAtSemicolon | FinalProject/shared/DatabaseUtils.cpp:81-91 | Open lines followed by a completing line form one statement: the lines joined with newlines. |
| DatabaseUtils.LeftoverFlushed | FinalProject/shared/DatabaseUtils.cpp:94-100 | Lines left without a `;` form a final statement unless they are blank. |
| DatabaseUtils.SplitStatementsNotBlank | FinalProject/shared/DatabaseUtils.cpp:71-100 | `SplitStatements`, the statement loop of `executeSqlScript`: no statement produced is blank. |
| DatabaseUtils.Prepared | FinalProject/shared/DatabaseUtils.cpp:50-61 | A blank statement is skipped. Otherwise the trimmed statement is run with one trailing `;` removed. |
| DatabaseUtils.ExecuteStatement | FinalProject/shared/DatabaseUtils.cpp:50-69 | A blank statement succeeds and runs nothing. Otherwise the prepared text runs, and it succeeds exactly when that text does not fail. |
| DatabaseUtils.RunStopsAtFirstFailure | FinalProject/shared/DatabaseUtils.cpp:86-89 | The script succeeds exactly when no executable statement fails. What ran is a prefix of the statements, and on failure it ends at the first failing one. |
| DatabaseUtils.ScriptSucceeds | FinalProject/shared/DatabaseUtils.cpp:71-102 | With no failing statement, every statement runs and the script succeeds. |
| DatabaseUtils.OutcomeStep | FinalProject/shared/DatabaseUtils.cpp:71-92 | One loop step: a comment is skipped, an open line is appended, and a completing line executes the statement and then stops or clears it. |
| DatabaseUtils.OutcomeAtEnd | FinalProject/shared/DatabaseUtils.cpp:94-102 | At the end of the file, a non-blank leftover is executed. |
| DatabaseUtils.TrimmedIsEmpty | FinalProject/shared/DatabaseUtils.cpp:94 | The check for a blank statement. |
| DatabaseUtils.ExecuteSqlScript | FinalProject/shared/DatabaseUtils.cpp:34-103 | A missing or unreadable file fails with nothing run. Otherwise the line loop's outcome is that of splitting the script and running its statements in order. |
| DatabaseUtils.JoinPath | FinalProject/shared/DatabaseUtils.cpp:149-150 | `QDir::filePath`: the result starts with the directory and ends with the name. |
| DatabaseUtils.ToAbsoluteMediaPath | FinalProject/shared/DatabaseUtils.cpp:137-151 | Empty stays empty, and an absolute path is kept. Anything else is placed under `<root>/FinalProject`. |
| DatabaseUtils.ToAbsoluteIdempotent | FinalProject/shared/DatabaseUtils.cpp:137-151 | Resolving twice is resolving once. |
| DatabaseUtils.FileUrlShape | FinalProject/shared/DatabaseUtils.cpp:153-161 | `ToFileUrl`: the URL is empty exactly when the path is; otherwise it starts with `file:///`. |
| DatabaseUtils.LocalPathOf | FinalProject/backend/Backend.cpp:29-30 | `QUrl::toLocalFile` strips the scheme from a `file://` URL. |
| DatabaseUtils.FileUrlRoundTrip | FinalProject/shared/DatabaseUtils.cpp:153-161 | Reading a file URL back as a local path gives the absolute media path. |
| DatabaseUtils.ConnectionName | FinalProject/shared/DatabaseUtils.cpp:208 | An empty connection name becomes the default one; any other is kept. |
| MediaFiles.FileNameOf | FinalProject/backend/Backend.cpp:32 | `QFileInfo::fileName`: the text after the last `/`. |
| MediaFiles.SplitName | FinalProject/backend/Backend.cpp:44-45 | `completeBaseName` and `suffix`: split at the last dot. The suffix has no dot, and the name is rebuilt from the two parts. |
| MediaFiles.ExtensionFor | FinalProject/backend/Backend.cpp:44 | The suffix, or `dat` when it is empty; never empty. |
| MediaFiles.BaseNameFor | FinalProject/backend/Backend.cpp:45 | The complete base name, or the prefix when it is empty. |
| MediaFiles.MediaFileName | FinalProject/backend/Backend.cpp:47 | The stored name is `base_stamp.ext`, each part at its place. |
| MediaFiles.MediaFileNameSplits | FinalProject/backend/Backend.cpp:44-47 | The stored name splits back into `base_stamp` and the extension. |
| MediaFiles.StampsKeepNamesApart | FinalProject/backend/Backend.cpp:46-47 | Two different stamps of equal width give different names. |
| MediaFiles.StoredNameAgrees | FinalProject/backend/Backend.cpp:47 | For a base without `%`, the chained `arg` gives `base_stamp.ext`. |
| MediaFiles.StoredNameMarkerInBase | FinalProject/backend/Backend.cpp:47 | A base ending in `%1` gives `p<stamp>_<ext>.%3` instead of `base_stamp.ext`. |
| MediaFiles.StoredNameMarkerChain | FinalProject/backend/Backend.cpp:47 | The three `arg` steps when the base ends in `%1`. |
| MediaFiles.MarkerNameDiffers | FinalProject/backend/Backend.cpp:47 | That result differs from the intended name. |
| MediaFiles.CopyMediaFile | FinalProject/backend/Backend.cpp:21-57 | Empty exactly when the path is blank, the file is missing, the directory cannot be made or the copy fails. Otherwise it is the target directory joined with the name the three chained `arg` calls build from the base name, stamp and extension. |
| MediaFiles.CopyMediaFileIntended | FinalProject/backend/Backend.cpp:44-47 | For a base name without `%` and an all-digit stamp, the stored path is `<dir>/<base>_<stamp>.<ext>`. |
| MediaFiles.StoredPathResolves | FinalProject/backend/Backend.cpp:55-56 | The returned relative path resolves, through `toAbsoluteMediaPath`, to the file the copy was written to, under the name as the chained `arg` calls built it. |
| MediaFiles.PlainPathResolves | FinalProject/backend/Backend.cpp:55-56 | A path under a plain sub-directory resolves under `<root>/FinalProject`. |
| AuthRepository.AddUser | FinalProject/backend/Backend.cpp:242-252 | The users table grows by one row with the next id, and earlier rows are kept. |
| AuthRepository.FindUser | FinalProject/backend/Backend.cpp:198-219 | A user is found exactly when the connection is open and some row has that email and password; the role is that row's. |
| AuthRepository.CreateUser | FinalProject/backend/Backend.cpp:221-254 | It succeeds exactly when the connection is open, the identifier is not `admin` and not taken, and the insert works. The role is `user`, and on failure nothing changes. |
| AuthRepository.EnsureAdminUser | FinalProject/backend/Backend.cpp:177-196 | Succeeds when admin exists or is inserted; inserts only when it is missing. |
| AuthRepository.SignUpThenLogIn | FinalProject/backend/Backend.cpp:198-254 | After a sign-up, logging in with the same credentials finds the user with role `user`. |
| AuthRepository.CreateUserKeepsIdentifiersUnique | FinalProject/backend/Backend.cpp:234-240 | Sign-up never creates a second user with the same email. |
| AuthRepository.EnsureAdminKeepsIdentifiersUnique | FinalProject/backend/Backend.cpp:177-196 | Seeding admin keeps emails unique, and admin exists afterwards. |
| Auth.Authenticate | FinalProject/core/AuthService.cpp:25-81 | Blank fields and mismatched sign-up passwords are reported first, without touching the repository. A failure has an empty role. Success needs a repository and both fields. |
| Auth.EmptyIsQtBlank | FinalProject/core/AuthService.cpp:9-12 | What the service calls empty (only C-locale white space) is blank to `QString::trimmed` as well; a lone no-break space is blank to Qt but not empty here. |
| Auth.NoRepository | FinalProject/core/AuthService.cpp:47-52 | Without a repository it always fails, with "Auth backend unavailable." exactly when the inputs are valid. |
| Auth.SignUpDelegates | FinalProject/core/AuthService.cpp:54-67 | Sign-up is `createUser`: "Account created." with its role, or "Unable to create account.". |
| Auth.LogInDelegates | FinalProject/core/AuthService.cpp:69-80 | Log-in is `findUser`: "Authenticated as <role>", or "Invalid credentials.". |
| Auth.RoleIgnored | FinalProject/core/AuthService.cpp:25-81 | The requested role does not affect the outcome. |
| Auth.AdminSignUpRefused | FinalProject/core/AuthService.cpp:54-67 | Signing up as `admin` never succeeds and leaves the repository as it was. |
| Auth.LogInSucceedsIff | FinalProject/core/AuthService.cpp:69-80 | Log-in succeeds exactly when both fields are filled, the repository is open, and a user has that email and password. |
| Auth.SignUpThenAuthenticate | FinalProject/core/AuthService.cpp:54-80 | A successful sign-up followed by a log-in is "Authenticated as user". |
| Writes.AppendGenre | FinalProject/backend/Backend.cpp:430-441 | The genre is appended with the next id, and the store stays valid. |
| Writes.AddGenreOn | FinalProject/backend/Backend.cpp:402-442 | Succeeds exactly when the database is open, the name is not blank, no genre has that name in any case, and the insert works. Then the trimmed name is appended. Failures leave the store, each with its own message: database unavailable, name required, genre already exists, failed to add genre. |
| Writes.AddGenreKeepsGenresDistinct | FinalProject/backend/Backend.cpp:421-441 | Adding a genre never creates two genres whose names differ only in case. |
| Writes.ResolveGenre | FinalProject/backend/Backend.cpp:477-495 | An existing genre's id; otherwise a new genre with the next id, or -1 when its insert fails. |
| Writes.InsertMovie | FinalProject/backend/Backend.cpp:497-532 | The title is appended. The link is added when the genre id is positive and the insert works, and the media row when its insert works. Other tables are unchanged. |
| Writes.AddMovieOn | FinalProject/backend/Backend.cpp:444-541 | `addMovie` leaves users, profiles, plans, subscriptions, the list and the history alone. It appends one title after the existing ones when it reports success, and none otherwise. |
| Writes.AddMovieValidation | FinalProject/backend/Backend.cpp:454-473 | A closed database, blank name or blank genre fails with the store unchanged, with "Name is required" / "Genre is required". |
| Writes.AddMovieSteps | FinalProject/backend/Backend.cpp:477-539 | After validation: resolve the genre, then fail with "Failed to insert title" or insert the title, link and media and answer "Movie added". |
| Writes.AddMovieSucceeds | FinalProject/backend/Backend.cpp:444-541 | `addMovie` succeeds exactly when validation passes and the title insert works, and then the store is as the steps give it. |
| Writes.AddMovieKeepsValid | FinalProject/backend/Backend.cpp:444-541 | The store stays valid, and a successful add links the new title to the named genre. |
| Writes.AddMovieTitleFailureKeepsGenre | FinalProject/backend/Backend.cpp:477-512 | A failed title insert still keeps a newly created genre. |
| Writes.ResolveGenreSplitsCase | FinalProject/backend/Backend.cpp:477-495 | When a genre exists only in another case, the exact-name lookup misses it and the genre added duplicates it up to case. |
| Writes.AddMovieSplitsGenreCase | FinalProject/backend/Backend.cpp:477-495 | A movie filed under a genre spelled in another case than the stored one succeeds and leaves two genres equal up to case. |
| Writes.DramaFiledTwice | FinalProject/backend/Backend.cpp:478 | Over the genres `[Drama]`, adding a movie under `drama` adds the genre `drama`, and the genres are no longer distinct up to case. |
| Writes.DramaFiledOnce | FinalProject/backend/Backend.cpp:420-421 | With the `lower()` lookup of `addGenre`, the same movie is filed under `Drama` and no genre is added. |
| Writes.ResolveGenreCaseless | FinalProject/backend/Backend.cpp:420-421 | The corrected lookup: a genre equal up to case is reused, and a genre is added only when none matches in any case. |
| Writes.AddMovieCaseless | FinalProject/backend/Backend.cpp:444-541 | `addMovie` with the corrected lookup succeeds on the same inputs, and grows the genres only by a name new in every case. |
| Writes.AddMovieCaselessKeepsGenresDistinct | FinalProject/backend/Backend.cpp:420-428 | The corrected `addMovie` keeps genre names distinct up to case, as `addGenre` does. |
| Writes.ResolveGenreCaselessAgrees | FinalProject/backend/Backend.cpp:477-495 | Over distinct genres, the two lookups agree when the genre is given as stored or matches none in any case. |
| Writes.AddMovieCaselessAgrees | FinalProject/backend/Backend.cpp:444-541 | On those inputs the corrected `addMovie` is the written one. |
| Writes.ResolveGenreFinds | FinalProject/backend/Backend.cpp:477-495 | A positive genre id names the genre in the resulting store, and titles are untouched. |
| Writes.InsertMovieValid | FinalProject/backend/Backend.cpp:497-532 | Inserting the next title keeps the store valid. |
| Writes.ResolveProfile | FinalProject/backend/Backend.cpp:716-736 | The user's oldest profile. Otherwise a new default profile with the next id, or nothing when its insert fails. |
| Writes.ResolveProfileSettles | FinalProject/backend/Backend.cpp:716-736 | The resolved profile is then the user's oldest, and resolving again changes nothing. |
| Writes.SavePair | FinalProject/backend/Backend.cpp:748-770 | Saved exactly when the pair is not yet listed and the insert works. "Already in My List" otherwise, with the store unchanged. |
| Writes.AddToMyListEffects | FinalProject/backend/Backend.cpp:686-714 | A closed database, blank input or unknown user leaves the store unchanged. The list never holds a pair twice. |
| Writes.AddToMyListForEffects | FinalProject/backend/Backend.cpp:716-770 | Succeeds exactly when a profile resolves, the title exists, the pair is new and the insert works. Then exactly that pair is appended; users and titles are unchanged. |
| Writes.AddToMyListTwice | FinalProject/backend/Backend.cpp:748-756 | Adding the same title again answers "Already in My List" and changes nothing. |
| Writes.AddToMyListOn | FinalProject/backend/Backend.cpp:686-771 | `addToMyList` changes only profiles and the list. The list grows by one entry after the existing ones exactly when it reports success. |
| Writes.AddToMyListFor | FinalProject/backend/Backend.cpp:716-770 | The same, once the user is known. |
| Writes.AddAgainFails | FinalProject/backend/Backend.cpp:748-756 | A pair already listed is refused without change. |
| Writes.Deactivate | FinalProject/backend/Backend.cpp:857-861 | Every subscription of the user becomes inactive, and others are kept. |
| Writes.DeactivateLeavesNoneActive | FinalProject/backend/Backend.cpp:857-861 | After deactivation the user has no active subscription. |
| Writes.SubscriptionDays | FinalProject/backend/Backend.cpp:863-864 | The plan's duration, or 30 days when it is not positive. |
| Writes.SubscribeTo | FinalProject/backend/Backend.cpp:857-883 | Succeeds exactly when the subscription insert works. Only subscriptions change; they grow by one on success, and the new row is active. |
| Writes.SubscribePlanOn | FinalProject/backend/Backend.cpp:818-883 | `subscribePlan` changes only subscriptions. They grow by one exactly on success, and the row added is active. |
| Writes.DeactivateStep | FinalProject/backend/Backend.cpp:857-861 | The unchecked deactivation changes only subscriptions and keeps their number. |
| Writes.SubscribeSteps | FinalProject/backend/Backend.cpp:823-855 | A closed database, blank identifier, non-positive plan id, unknown user or unknown plan fails without change. Otherwise it is `SubscribeTo` on that user and plan. |
| Writes.SubscribeLeavesOneActive | FinalProject/backend/Backend.cpp:857-878 | When both statements work, the new subscription is the user's only active one. |
| Writes.SubscribeInsertFailureLeavesNone | FinalProject/backend/Backend.cpp:866-882 | A failed insert answers "Failed to subscribe" and leaves the user with no active subscription. |
| Writes.SubscribeUncheckedDeactivate | FinalProject/backend/Backend.cpp:857-861 | A failed deactivation is not checked: the old active subscriptions stay beside the new one. |
| Writes.SubscribeToEffects | FinalProject/backend/Backend.cpp:857-878 | Only subscriptions change, and they grow by one unless the insert fails. The new row is active, for the plan, from today to today plus the plan's days. |
| Writes.SaveWatchEffects | FinalProject/backend/Backend.cpp:930-947 | A history row is appended exactly when the title exists and the insert works. |
| Writes.LogPlaybackForEffects | FinalProject/backend/Backend.cpp:909-947 | Only profiles and history change. With a profile, a title and a working insert, the row is appended for the user's oldest profile. |
| Writes.LogPlaybackEffects | FinalProject/backend/Backend.cpp:885-947 | A closed database, blank input or unknown user changes nothing. Otherwise the row `(profile, title, position, finished)` is appended. |
| Writes.LogPlaybackOn | FinalProject/backend/Backend.cpp:885-948 | `logPlayback` changes only profiles and the history. The history keeps its rows and gains at most one. |
| Writes.LogPlaybackFor | FinalProject/backend/Backend.cpp:909-947 | The same, once the user is known. |
| Writes.SaveWatch | FinalProject/backend/Backend.cpp:930-947 | The title lookup and insert change only the history, which keeps its rows and gains at most one. |
| Writes.ReportedRole | FinalProject/backend/Backend.cpp:350 | The role reported is the result's, or `user` when it is empty. |
| UserProfile.ProfileFailures | FinalProject/backend/Backend.cpp:548-569 | The page fails exactly when the database is closed, the identifier is blank or the user is unknown, each with its message. |
| UserProfile.PageAfter | FinalProject/backend/Backend.cpp:543-684 | Otherwise the page is that of the user with that email. |
| UserProfile.UserProfileOf | FinalProject/backend/Backend.cpp:543-684 | `userProfile` succeeds only on an open database, for the trimmed email asked for, and its counts are the sizes of its three lists. |
| UserProfile.UserByEmail | FinalProject/backend/Backend.cpp:563-569 | The user row with that email, present exactly when the id lookup finds one. |
| UserProfile.PageBounds | FinalProject/backend/Backend.cpp:621-680 | The counts are the list lengths. History holds at most 15 rows and My List at most 20, and all rows are shown when there are no more. |
| UserProfile.HistoryNewestFirst | FinalProject/backend/Backend.cpp:621-647 | The k-th history row shown is the k-th newest of the user's rows, joined with its title. |
| UserProfile.SubscriptionShown | FinalProject/backend/Backend.cpp:578-598 | No subscription is shown exactly when the user has none whose plan exists. |
| UserProfile.LatestSubscription | FinalProject/backend/Backend.cpp:578-598 | None exactly when no subscription of the user joins a plan. |
| UserProfile.NewestSubscriptionShown | FinalProject/backend/Backend.cpp:578-598 | The newest subscription of the user is the one shown, with its plan's columns. |
| UserProfile.SubscriptionShowsNewPlan | FinalProject/backend/Backend.cpp:578-598 | After a successful subscribe, the page shows the new plan, from today, active. |
| UserProfile.ProfileRows | FinalProject/backend/Backend.cpp:600-619 | As many profiles as the user owns. |
| UserProfile.ProfileViews | FinalProject/backend/Backend.cpp:600-619 | One view per profile. |
| UserProfile.ProfileViewsAre | FinalProject/backend/Backend.cpp:600-619 | Views built row by row are the profiles query's answer. |
| UserProfile.HistoryRows | FinalProject/backend/Backend.cpp:621-647 | Every history row shown belongs to one of the user's profiles and names an existing title. |
| UserProfile.ListRows | FinalProject/backend/Backend.cpp:649-674 | Every list row shown belongs to one of the user's profiles and names an existing title. |
| UserProfile.HistoryViews | FinalProject/backend/Backend.cpp:621-647 | One view per history row shown. |
| UserProfile.ListViews | FinalProject/backend/Backend.cpp:649-674 | One view per list row shown. |
| UserProfile.JoinHistory | FinalProject/backend/Backend.cpp:623-630 | The JOIN with titles keeps one row per history row. |
| UserProfile.JoinList | FinalProject/backend/Backend.cpp:651-658 | The JOIN with titles keeps one row per list row. |
| UserProfile.HistoryViewsFrom | FinalProject/backend/Backend.cpp:634-645 | One view per joined row. |
| UserProfile.ListViewsFrom | FinalProject/backend/Backend.cpp:662-672 | One view per joined row. |
| UserProfile.TitleById | FinalProject/backend/Backend.cpp:627 | The joined title has that id and is stored. |
| UserProfile.TitleByIdMisses | FinalProject/backend/Backend.cpp:627 | The join misses exactly when no title has that id. |
| UserProfile.TitleByIdFinds | FinalProject/backend/Backend.cpp:627 | In a valid store every title is found by its id. |
| UserProfile.OwnsOldest | FinalProject/backend/Backend.cpp:716-736 | The resolved profile belongs to the user. |
| UserProfile.TitleFound | FinalProject/backend/Backend.cpp:738-746 | The title found by name exists under its id and matches the name case-insensitively. |
| UserProfile.LoggedPlaybackShows | FinalProject/backend/Backend.cpp:885-947 | After a logged playback, the page's newest history row is that title, position and flag. |
| UserProfile.AddedTitleShows | FinalProject/backend/Backend.cpp:686-771 | After a successful add, the page's newest My List row is that title. |
| UserProfile.AddedTitleListed | FinalProject/backend/Backend.cpp:649-674 | The added title heads the user's list views. |
| UserProfile.NewestHistoryRow | FinalProject/backend/Backend.cpp:630 | The last appended history row of the user comes first. |
| UserProfile.NewestListRow | FinalProject/backend/Backend.cpp:658 | The last appended list row of the user comes first. |
| UserProfile.UserLookupSame | FinalProject/backend/Backend.cpp:563 | User lookups depend only on the users table. |
| UserProfile.PlanLookupSame | FinalProject/backend/Backend.cpp:848 | Plan lookups depend only on the plans table. |
| App.AuthenticateOn | FinalProject/backend/Backend.cpp:335-352 | The backend always reports a non-empty role. |
| App.FailedAuthenticationReportsUser | FinalProject/backend/Backend.cpp:350 | A failed authentication is reported with role `user`. |
| App.Backend.constructor | FinalProject/backend/Backend.cpp:311-317 | The store is seeded with admin, and the cache holds one reload of the SQL provider. |
| App.Backend.Reload | FinalProject/backend/Backend.cpp:319-323 | The cache becomes the snapshot of the current store. |
| App.Backend.HeroItem | FinalProject/backend/Backend.cpp:325-328 | Returns the cached featured item. |
| App.Backend.Categories | FinalProject/backend/Backend.cpp:330-333 | Returns the cached categories. |
| App.Backend.Authenticate | FinalProject/backend/Backend.cpp:335-352 | The reply and new store are those of authenticating on the store. |
| App.Backend.AddGenre | FinalProject/backend/Backend.cpp:402-442 | The reply and new store are `AddGenreOn`'s. |
| App.Backend.AddMovie | FinalProject/backend/Backend.cpp:444-541 | The reply and new store are `AddMovieOn`'s. A successful add reloads the cache; a failed one leaves it. |
| App.Backend.WriteMovie | FinalProject/backend/Backend.cpp:454-532 | The validation and insert steps give `AddMovieOn`. |
| App.Backend.WriteCheckedMovie | FinalProject/backend/Backend.cpp:477-532 | Past the input checks, the genre, title, link and media steps give `AddMovieOn`. |
| App.Backend.ResolveGenre | FinalProject/backend/Backend.cpp:477-495 | The lookup-or-insert step is `ResolveGenre`. |
| App.Backend.InsertMovieRows | FinalProject/backend/Backend.cpp:497-532 | The title, link and media inserts are `InsertMovie`. |
| App.Backend.AddToMyList | FinalProject/backend/Backend.cpp:686-771 | The reply and new store are `AddToMyListOn`'s. |
| App.Backend.AddToMyListFor | FinalProject/backend/Backend.cpp:716-770 | The steps after the user lookup are `AddToMyListFor`. |
| App.Backend.ResolveProfile | FinalProject/backend/Backend.cpp:716-736 | The profile step is `ResolveProfile`, and a failed insert leaves the store. |
| App.Backend.SubscribePlan | FinalProject/backend/Backend.cpp:818-883 | The reply and new store are `SubscribePlanOn`'s. |
| App.Backend.SubscribeTo | FinalProject/backend/Backend.cpp:857-882 | The deactivate-and-insert steps are `SubscribeTo`. |
| App.Backend.LogPlayback | FinalProject/backend/Backend.cpp:885-948 | The new store is `LogPlaybackOn`'s. |
| App.Backend.UserProfile | FinalProject/backend/Backend.cpp:543-684 | The reply is the page of `UserProfileOf`. |
| App.Backend.ProfileRows | FinalProject/backend/Backend.cpp:600-619 | The profile loop yields the profile views. |
| App.Backend.HistoryRows | FinalProject/backend/Backend.cpp:621-647 | The history query yields the history views. |
| App.Backend.HistoryViewRows | FinalProject/backend/Backend.cpp:634-645 | The row loop yields one view per joined row. |
| App.Backend.ListRows | FinalProject/backend/Backend.cpp:649-674 | The list query yields the list views. |
| App.Backend.ListViewRows | FinalProject/backend/Backend.cpp:662-672 | The row loop yields one view per joined row. |

## Left out

- Qt and QML marshalling is not modelled: `QVariantMap` replies, `makeVariantItem`/`toVariant`, signals and `dataChanged`. Replies are datatypes.
- The SQL engine is not modelled, nor the connection cache (`QSqlDatabase::contains`). SELECT statements never fail in the model. Only write statements fail, through the `faults` argument, and an unopened database is a `DatabaseUnavailable` fault or an `open` flag.
- `ensureDatabase`, `ensureRoleColumn` (the role-column migration), `findProjectRoot`, `projectRoot` and `ensureStorageDirectories` are not modelled: the project root is a parameter, and directories are assumed creatable unless `dirReady` says otherwise.
- The file system is not modelled. `copyMediaFile` sees a set of existing files and, for each of the two copies `addMovie` makes, its own directory flag, stamp and copy-outcome flag (`Writes.MediaEnv`). `QFile::remove` before the copy is not modelled.
- Clocks are parameters. The file-name stamp is a digit string (`yyyyMMddHHmmsszzz`), and dates are day numbers. The ISO date text of subscriptions is not modelled.
- Plan prices (`price_month`, floating point) are not modelled.
- `listUsers`, `listGenres` and `listPlans` (including the seeding of default plans) are read-only listings outside the modelled core.
- Timestamp columns (`created_at`, `updated_at`, `added_at`) are not modelled. Ordering by them is table order, so rows created in the same second keep their insertion order.
- The hero query's `primary_genre` column is computed but never read by the code, so it is not modelled.
- A title with several media rows would be repeated by the `LEFT JOIN`. The model takes its first media row (`Store.MediaOf`). Likewise, a title linked twice to one genre is listed once.
- The legacy loader assigns a `type` field (`StreamingDataModel.cpp:80`) that its item type (`models/MediaModels.h`) does not declare. That field is not modelled.
- `QUrl` percent-encoding is not modelled. `DatabaseUtils.LocalPathOf` strips the `file://` scheme (and the slash before a drive letter) without decoding.
- DatabaseUtils.ToFileUrl: a UNC path `//host/share` is not treated as a host, so the model gives `file:////host/share` where Qt gives `file://host/share`. `DatabaseUtils.LocalPathOf` likewise recognises only the lower-case `file://` prefix, not `FILE://` or the one-slash form `file:/x`.
- QtFormat.Arg: models `QString::arg` with a string argument only. Field width, fill character and the locale behaviour of `%L` are not modelled, and only ASCII digits count as marker digits.
- Text.NatToString: models `std::to_string` and integer `arg` on non-negative values only. The formatters call them only on positive hours and minutes.
- 32-bit `int` wrap-around in durations, ids and positions is not modelled; integers are unbounded.
- `main.cpp`, the QML user interface and concurrency (the app is single-threaded over one connection) are not part of this model.
- UserProfile.ProfileViews: its own contract states only the row count; `UserProfile.ProfileViewsAre` and `App.Backend.ProfileRows` state the rows.
- UserProfile.HistoryViews: its own contract states only the row count; `UserProfile.HistoryNewestFirst` states each row.
- UserProfile.ListViews: its own contract states only the row count; `UserProfile.AddedTitleListed` states its head after an add, and `App.Backend.ListRows` its rows.

## Findings

| source | as written | input that shows it | evidently intended | confidence | as-written member | corrected member |
|---|---|---|---|---|---|---|
| FinalProject/backend/Backend.cpp:478 | `addMovie` looks the genre up with `name = ?`, an exact match, and inserts a new genre on a miss, while `addGenre` refuses any name that exists up to case. | The store holds the genre `Drama`; a movie is added under `drama`: the lookup misses and the genre `drama` is inserted beside `Drama` | Reuse `Drama`, looking the genre up with `lower(name) = lower(?)` as `addGenre` does, so genre names stay distinct up to case | not executed | Writes.DramaFiledTwice | Writes.AddMovieCaseless |
| FinalProject/backend/Backend.cpp:47 | The name is built as `"%1_%2.%3".arg(baseName).arg(stamp).arg(ext)`. Each chained `arg` replaces the lowest marker still present, including one that came in with the base name. | A source file named `clip%1.mp4`, stamp `S`: the second `arg` fills the base's `%1` with `S`, the third fills `%2` with `mp4`, giving `clipS_mp4.%3` | `clip%1_S.mp4`: base, `_`, stamp, `.`, extension | not executed | MediaFiles.StoredNameMarkerInBase | MediaFiles.MediaFileName |
