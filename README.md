# Game backend core, modelled in Dafny

The server-side core of a game backend:

- the SQL-backed game endpoints: start a session, end it and fold the score into the leaderboard, list the leaderboard, per-user stats and personal bests;
- the MongoDB score and session models with their schema checks, query helpers and pre-save hook;
- the in-memory one-time code table of the authentication controller;
- the authentication middleware: bearer token, subscription gate, ownership check and the per-address rate limiter;
- the upload middleware: MIME and extension filter, stored file name, destination and size limit;
- the request validation chains and their error reply.

Modules, in dependency order:

- `Common`: ASCII lower-casing, white-space trimming, decimal text, substring.
- `Ordering`: descending sort, filter, count and take, with permutation and counting lemmas.
- `LeaderboardModel` (models/Leaderboard.js): score documents, the top list, a user's rank, personal bests, and renaming a loaded document (`EntryDocument`).
- `GameSessionModel` (models/GameSession.js): session documents, the derived duration, the pre-save hook (`SessionDocument`), per-type statistics.
- `GameController` (controllers/gameController.js): `GameStore` holds the sessions and leaderboard tables and the plays folded into each row; the read endpoints are functions of those tables.
- `AuthController` (controllers/authController.js): code generation and the `CodeStore` table that forgotPassword fills and verifyEmail / resetPassword consume.
- `AuthMiddleware` (middleware/auth.js): header splitting, token extraction, authentication outcomes, the subscription and ownership gates, and the `RateLimiter` class over its map of attempt times.
- `Upload` (middleware/upload.js): path.extname / path.basename, the file filter, the stored name, the destination and the size limit.
- `Validation` (middleware/validation.js): each express-validator check used, as the list of errors it adds, each chain as the concatenation of its checks, and the error reply.

Stateful parts are classes whose methods are proved against functions of the old state:
`GameStore`, `CodeStore`, `RateLimiter`, `SessionDocument` and `EntryDocument`.

External effects are parameters:

- the clock (`now`) and `Math.random()` (a real in [0, 1), or the text it prints);
- the outcome of token verification and of the user lookup;
- whether mail was sent;
- the users table;
- the validator.js `isEmail`, `normalizeEmail` and `isMongoId` results.

## Model

| member | source | states |
|---|---|---|
| Common.Lower | controllers/authController.js:98 | `toLowerCase` keeps the length and maps each character to its ASCII lower case |
| Common.LowerIdempotent | middleware/auth.js:166 | lower-casing a key twice is lower-casing it once, so stored keys are stable |
| Common.TrimSpec | models/Leaderboard.js:9-13 | trim removes exactly the leading and trailing white space; the result is empty or starts and ends with non-space |
| Common.TrimIdempotent | models/Leaderboard.js:12 | trimming an already trimmed name changes nothing |
| Common.DecimalRoundTrip | controllers/authController.js:20-22 | the decimal text of a number reads back as that number |
| Common.DecimalLength | controllers/authController.js:20-22 | a number in [10^(k-1), 10^k) prints with exactly k digits |
| Common.Substring | middleware/upload.js:54 | `substring(a, b)` with clamped bounds is a slice of the text, no longer than it |
| Ordering.SortDesc | models/Leaderboard.js:79 | sorting by score descending yields a permutation of the input, ordered non-increasingly |
| Ordering.Filter | models/Leaderboard.js:75-78 | a filter keeps only elements of the input that satisfy the predicate, and all of them |
| Ordering.FilterCount | models/Leaderboard.js:101-105 | counting the matching documents equals the length of the filtered list |
| Ordering.CountPermutation | models/Leaderboard.js:101-105 | a count does not depend on the order of the documents |
| Ordering.SortedSelection | models/Leaderboard.js:75-79 | the sorted filtered list contains exactly the matching documents |
| Ordering.PrefixDominates | models/Leaderboard.js:79-80 | every element left out by a limit scores no higher than every element kept |
| Ordering.RowsAboveSitBefore | models/Leaderboard.js:101-107 | in a descending list, at most j elements beat the score at position j, and exactly j when every earlier element beats it |
| Ordering.FilterImplied | middleware/auth.js:181 | filtering by a predicate and then by a stronger one is filtering by the stronger one alone |
| Ordering.FilterAppend | middleware/auth.js:191 | filtering a list with one more element appends that element exactly when it matches |
| Ordering.FilterIndices | middleware/auth.js:181 | a filter keeps its elements in their original order: the k-th kept element sits at an increasing position k of the input |
| Ordering.FilterNonDecreasing | middleware/auth.js:181 | filtering a list of times in time order leaves them in time order |
| Ordering.CountSplit | controllers/gameController.js:88 | a row either has a best score or has none, so the two counts add up to the number of rows |
| Ordering.SumAppend | controllers/gameController.js:61 | the sum over two lists joined is the sum of their sums |
| Ordering.SumPermutation | controllers/gameController.js:122-125 | a sum does not depend on the order of the rows |
| Ordering.Take | controllers/gameController.js:89 | LIMIT n keeps the first min(n, length) rows |
| LeaderboardModel.ParseGameType | models/Leaderboard.js:19-24 | the gameType enum accepts exactly the four names and maps each to its type |
| LeaderboardModel.GameTypeRoundTrip | models/Leaderboard.js:19-24 | every game type's name parses back to it |
| LeaderboardModel.CreateEntry | models/Leaderboard.js:3-55 | a created document is valid, active, trimmed, race by default; a rejection lists exactly the failed schema rules (empty name, negative score, unknown type) |
| LeaderboardModel.Page | models/Leaderboard.js:80 | a cursor limit keeps a prefix; 0 keeps everything and a negative limit acts as its absolute value |
| LeaderboardModel.TopScores | models/Leaderboard.js:85-88 | the returned entries are ranked 1, 2, 3, … by position |
| LeaderboardModel.TopScoresSpec | models/Leaderboard.js:74-88 | the top list holds only active entries of the requested type, in non-increasing score order, as many as the limit allows, and no left-out one beats a listed one |
| LeaderboardModel.UserBest | models/Leaderboard.js:93-97 | the user's best is the score of one of their active entries of the type and no lower than any other |
| LeaderboardModel.UserRank | models/Leaderboard.js:92-108 | null exactly when the user has no active entry of the type; otherwise one plus the number of active entries of the type that beat the user's best |
| LeaderboardModel.RankWithinTopPosition | models/Leaderboard.js:74-107 | a user's rank is no greater than the position of any of their entries in the top list, and equals it when that entry is their best and every entry above it scores strictly higher |
| LeaderboardModel.RankCount | models/Leaderboard.js:101-107 | when row j of the sorted active entries scores no more than b, at most j entries beat b, and exactly j when row j scores b and every earlier row more |
| LeaderboardModel.GroupByTypeSpec | models/Leaderboard.js:119-126 | each $group holds the count, best score and latest time of exactly the entries of its type |
| LeaderboardModel.PersonalBestsSpec | models/Leaderboard.js:111-126 | a type is reported exactly when the user has an active entry of it, with the user's best score, the number of those entries and the latest of their achievement times, which one of them carries |
| LeaderboardModel.EntryDocument.Load | models/Leaderboard.js:141 | a loaded document starts equal to its stored copy |
| LeaderboardModel.EntryDocument.UpdateUserName | models/Leaderboard.js:141-144 | only the (trimmed) name changes; the save succeeds exactly when the document stays valid and only then is stored |
| GameSessionModel.ParseStatus | models/GameSession.js:31-35 | the status enum accepts exactly its three names |
| GameSessionModel.StatusRoundTrip | models/GameSession.js:31-35 | every status name parses back to it |
| GameSessionModel.CalculatedDuration | models/GameSession.js:70-75 | the virtual is set exactly when both times are |
| GameSessionModel.CalculatedDurationIsFloor | models/GameSession.js:70-75 | the derived duration is the floor of the elapsed milliseconds over 1000, non-negative iff the end is not before the start |
| GameSessionModel.Hooked | models/GameSession.js:78-83 | the hook changes nothing but the duration |
| GameSessionModel.HookedSpec | models/GameSession.js:78-83 | a non-zero duration is never overwritten; a null or zero one becomes the derived one when both times are set |
| GameSessionModel.HookedIdempotent | models/GameSession.js:78-83 | saving twice is saving once |
| GameSessionModel.SessionDocument.constructor | models/GameSession.js:9-35 | a new session: race, started now, no end, no duration, score 0, active |
| GameSessionModel.SessionDocument.PreSave | models/GameSession.js:78-83 | the saved document is the hooked one; with both times set it has a duration |
| GameSessionModel.GroupStatsSpec | models/GameSession.js:89-98 | each group holds the count, score sum, duration sum and best score of exactly the sessions of its type |
| GameSessionModel.UserStatsSpec | models/GameSession.js:86-102 | a type is reported exactly when the user has a completed session of it, summarising only those sessions |
| GameController.Greatest | controllers/gameController.js:59 | GREATEST ignores NULL: NULL only when both are, otherwise one of the two and no lower than either |
| GameController.BindIntText | controllers/gameController.js:39-42 | decimal text, with or without a sign, binds to an integer column as the number it spells; other text is refused |
| GameController.BindEndSpec | controllers/gameController.js:34-42 | after the guard, the UPDATE is refused exactly when the session id, the score or a truthy duration is neither null, a number nor integer text; a null score binds as NULL, a number as itself, a falsy duration as 0 |
| GameController.Upsert | controllers/gameController.js:55-64 | the upsert adds or updates only the user's row and leaves every other row alone |
| GameController.BestPlay | controllers/gameController.js:59 | the best score ignores NULLs: NULL exactly when every play's score is NULL, otherwise one of the scores and no lower than any |
| GameController.UpsertSummarises | controllers/gameController.js:55-61 | after an upsert the user's row holds the best score, the count and the total playtime of its plays plus the new one |
| GameController.UpsertKeepsBoard | controllers/gameController.js:49-64 | an upsert keeps every row of the board summarising the plays recorded for its user |
| GameController.ReplaySummarises | controllers/gameController.js:55-61 | however many ends a user makes, the row summarises all of them |
| GameController.BestPlayBelow | controllers/gameController.js:59 | the best score of some of the plays is no higher than the best of all of them |
| GameController.SummaryIsOrderFree | controllers/gameController.js:58-61 | a row's best score, game count and playtime do not depend on the order of the ends |
| GameController.GameStore.Start | controllers/gameController.js:3-27 | 400 and no insert exactly when the game mode is missing or empty; otherwise one active session is inserted under a fresh id |
| GameController.GameStore.End | controllers/gameController.js:29-78 | 400 exactly when the session id is falsy or the score undefined (null passes); 500 exactly when PostgreSQL refuses a bound value; 404 exactly when no session has that id and the caller's id; on 200 the session takes the score (NULL for null), the duration (0 when falsy) and the end time, and a known user's row is upserted with the play, keeping the board summarising every user's plays |
| GameController.GameStore.EndTwice | controllers/gameController.js:39-46 | ending the same session twice succeeds both times and counts two games |
| GameController.GameStore.EndWithNullScore | controllers/gameController.js:31-64 | a null score answers 200, is stored as NULL, counts one more game and leaves the best score as it was |
| GameController.GameStore.EndSessionZero | controllers/gameController.js:34-45 | the session id "0" as text passes the guard and finds no session (404); as the number 0 it is refused as missing (400) |
| GameController.ParseIntRoundTrip | controllers/gameController.js:82 | parseInt reads back the decimal text of a number, with or without a minus sign |
| GameController.EffectiveLimit | controllers/gameController.js:82 | `parseInt(limit) \|\| 10` is never 0 |
| GameController.EffectiveLimitCases | controllers/gameController.js:82 | no limit and "0" give 10; the decimal text of a positive number gives that number |
| GameController.RankRows | controllers/gameController.js:92-98 | rows are numbered from 1 and keep each row's name and best score (none where parseInt gives NaN) |
| GameController.SortedTableSpec | controllers/gameController.js:85-90 | ORDER BY best_score DESC lists every row of the table once, each with its user's figures, the NULL best scores first and the others in non-increasing order |
| GameController.Leaderboard | controllers/gameController.js:80-108 | the query fails (500) exactly when the effective limit is negative |
| GameController.LeaderboardSpec | controllers/gameController.js:82-98 | the page has min(limit, rows) entries ranked 1..n, the entries without a score first and the others in non-increasing score order |
| GameController.NullBestListedFirst | controllers/gameController.js:85-95 | when some user's best score is NULL, the first listed entry has no score |
| GameController.LeaderboardRowsExist | controllers/gameController.js:85-90 | every listed entry carries the best score and the name of some user of the board |
| GameController.PageUsersRows | controllers/gameController.js:85-98 | the i-th listed entry carries the name and the best score of the i-th kept user's row |
| GameController.LeaderboardKeepsTop | controllers/gameController.js:85-90 | every user whose row is left off the page sorts no earlier than any listed entry |
| GameController.MaxScore | controllers/gameController.js:119-128 | MAX is null iff every score is null, else one of the scores and no lower than any |
| GameController.UserStats | controllers/gameController.js:110-145 | 401 exactly when there is no truthy user |
| GameController.UserStatsSpec | controllers/gameController.js:119-128 | the stats count every session of the user and report the best of their scores, 0 when none is set |
| GameController.UserStatsTotals | controllers/gameController.js:119-128 | total_score and total_playtime are the sums of the user's scores and durations, NULL counting as 0, in whatever order the rows are read; total_games is their number |
| GameController.SumsGrow | controllers/gameController.js:122-125 | one more session adds its score and its duration to the totals, NULL as 0 |
| GameController.PersonalBests | controllers/gameController.js:147-181 | 401 exactly when there is no truthy user |
| GameController.PersonalBestsReportPlays | controllers/gameController.js:156-175 | on a consistent board the reply holds the number and total playtime of the user's plays; the best score is one of their scores, no lower than any, and absent (NaN) exactly when every score was NULL; zeros without any play |
| AuthController.CodeNumber | controllers/authController.js:20-22 | every draw gives a number between 100000 and 999999 |
| AuthController.CodeNumberCovers | controllers/authController.js:20-22 | every six-digit number is produced by some draw |
| AuthController.GenerateVerificationCode | controllers/authController.js:20-22 | a code is six decimal digits reading back as the drawn number |
| AuthController.CheckCodeSpec | controllers/authController.js:98-110 | a code matches iff an entry of the right purpose is stored, unexpired at this instant, with equal digits; an expired entry is reported expired whatever the code |
| AuthController.ResetStricterThanVerify | controllers/authController.js:250-253 | resetPassword accepts only what verifyEmail accepts, and verifyEmail also takes reset codes |
| AuthController.AfterCheck | controllers/authController.js:103-106 | an expired or matched entry is deleted, a wrong code keeps it, other keys are untouched |
| AuthController.CodeStore.constructor | controllers/authController.js:8 | the table starts empty |
| AuthController.CodeStore.ForgotPassword | controllers/authController.js:190-240 | 400 without an e-mail, 404 for an unknown user; otherwise a fresh reset code replaces the address's entry, kept even when mail fails (500) |
| AuthController.CodeStore.VerifyEmail | controllers/authController.js:90-144 | 400 for missing fields, no entry, an expired entry (deleted) or a wrong code (kept); a match deletes the entry and answers 200 for a known user |
| AuthController.CodeStore.ResetPassword | controllers/authController.js:242-279 | as verifyEmail, but only reset-purpose entries count, a new password is required and a match answers 200 |
| AuthController.CodeStore.ResetTwice | controllers/authController.js:272 | a code is single-use: a second identical reset after a successful one gets 400 |
| AuthController.CodeStore.ForgotPasswordAsWritten | controllers/authController.js:198 | with the user model unbound, forgotPassword answers 400 or 500 and never stores a code |
| AuthController.IssuedCodeLifetime | controllers/authController.js:204-210 | an issued code is accepted by both consumers up to its expiry instant and expired from the next millisecond |
| AuthMiddleware.IndexOf | middleware/auth.js:8 | the position of the first occurrence of the separator, every earlier character differing from it; the length of the text when it does not occur |
| AuthMiddleware.Found | middleware/auth.js:8 | the separator occurs in the text exactly when its position is inside the text |
| AuthMiddleware.Split | middleware/auth.js:8 | `split(' ')` gives at least one field, none containing the separator, and one field exactly when there is no separator |
| AuthMiddleware.SplitJoin | middleware/auth.js:8 | joining the fields back with the separator gives the header |
| AuthMiddleware.JoinSplit | middleware/auth.js:8 | splitting separator-free fields joined by the separator gives them back |
| AuthMiddleware.ExtractToken | middleware/auth.js:7-15 | a token is non-empty and holds no space |
| AuthMiddleware.TokenAfterFirstSpace | middleware/auth.js:7-8 | the token is the text between the first and second space, and absent when that is empty or there is no space |
| AuthMiddleware.BearerHeader | middleware/auth.js:8 | `<scheme> <token>` with a space-free token yields that token, whatever the scheme |
| AuthMiddleware.AuthenticateSpec | middleware/auth.js:5-67 | a request proceeds iff its token decodes to the id of an existing, verified user, who becomes req.user; every refusal is 401 except unexpected failures, which are 500 |
| AuthMiddleware.OptionalAgreesWithStrict | middleware/auth.js:129-159 | optional authentication always proceeds, with the user strict authentication accepts and with none when it rejects |
| AuthMiddleware.Level | middleware/auth.js:78-85 | every subscription name has a level in 0..2 |
| AuthMiddleware.SubscriptionGate | middleware/auth.js:70-96 | 401 without a user; a user passes iff their level reaches the required one; passing a level passes every lower one |
| AuthMiddleware.OwnershipSpec | middleware/auth.js:99-126 | 401 without a user; 400 when body, params and query are all empty; otherwise the request proceeds iff the first non-empty of them is the user's id |
| AuthMiddleware.InWindow | middleware/auth.js:181 | a stored time is kept exactly when it lies less than fifteen minutes before now; times recorded in order stay in order |
| AuthMiddleware.InWindowInOrder | middleware/auth.js:181 | the kept times are a subsequence of the stored ones, in their stored order |
| AuthMiddleware.RateLimiter.constructor | middleware/auth.js:163 | the attempts map starts empty |
| AuthMiddleware.RateLimiter.Attempt | middleware/auth.js:165-193 | a missing address passes untouched; otherwise 429 iff five attempts are in the window, else the stored list becomes the in-window attempts plus now |
| AuthMiddleware.RateLimiter.Cleanup | middleware/auth.js:195-200 | every stored time equal to the target is removed from the key's list, nothing else changes |
| AuthMiddleware.RateLimiter.AttemptThenCleanup | middleware/auth.js:191-200 | cleanup after an accepted attempt removes the oldest in-window attempt, not the current one |
| AuthMiddleware.ReplayStoredIsRecent | middleware/auth.js:170-192 | for requests in time order, the stored list is the accepted times inside the window of the last accepted one, at most five of them |
| AuthMiddleware.AtMostFivePerWindow | middleware/auth.js:170-192 | at most five accepted attempts fall in any window ending at a request |
| AuthMiddleware.RefusedOnlyWhenFull | middleware/auth.js:183-188 | a request is refused exactly when five earlier accepted attempts lie in its window |
| Upload.TrimTrailingSlashes | middleware/upload.js:55 | trailing slashes are cut and nothing else |
| Upload.LastSegment | middleware/upload.js:55 | the text after the last slash, which holds no slash |
| Upload.LastDot | middleware/upload.js:55 | the last dot of a text, or none when there is no dot |
| Upload.ExtName | middleware/upload.js:55 | path.extname is empty or a dot followed by no dot or slash |
| Upload.Stem | middleware/upload.js:56 | path.basename never contains a slash |
| Upload.AllowedIsNotSuspicious | middleware/upload.js:6-25 | no listed extension is empty or executable |
| Upload.PatternsAreExtensions | middleware/upload.js:83-94 | every executable pattern is an extension-shaped ending |
| Upload.SuspiciousUnreachable | middleware/upload.js:83-98 | a name that passed the MIME and extension checks never matches an executable pattern |
| Upload.FileFilterSpec | middleware/upload.js:68-101 | a file is accepted iff its MIME type is listed and the lower-cased extension equals the listed one; the suspicious verdict never occurs; an unlisted type is refused as not allowed, except a name every object inherits, refused as a wrong extension |
| Upload.PhpAsPng | middleware/upload.js:74-80 | a PHP script sent as image/png fails the extension check |
| Upload.JpegWantsJpg | middleware/upload.js:74-80 | image/jpeg refuses ".jpeg" and accepts ".JPG" |
| Upload.FileSizeFollowsLevel | middleware/upload.js:104-110 | the limit is one of the three tiers, chosen by subscription level, and grows with the level |
| Upload.SanitizeSpec | middleware/upload.js:56 | sanitising leaves one letter, digit or '_' per UTF-16 code unit: without astral characters it replaces each non-alphanumeric character by '_' in place; it is idempotent |
| Upload.SanitizeKeepsSafe | middleware/upload.js:56 | a name of letters, digits and underscores is left as it is |
| Upload.EmojiTakesTwoUnderscores | middleware/upload.js:56 | an emoji, a surrogate pair in JavaScript, becomes two underscores |
| Upload.SanitizeAppend | middleware/upload.js:56 | sanitising distributes over concatenation |
| Upload.ShortBasenameSpec | middleware/upload.js:56-59 | the shortened base name is the first min(50, code units) characters of the sanitised base name, all letters, digits or '_'; without astral characters, each is the sanitised character of the base name at that position |
| Upload.StoredNameParts | middleware/upload.js:61 | the stored name is a plain prefix followed by the lower-cased extension |
| Upload.StoredNameStartsWithTime | middleware/upload.js:53-61 | the stored name starts with the upload time and an underscore |
| Upload.StoredNameSpec | middleware/upload.js:51-63 | the stored name has no slash, starts with the time and '_', and its path.extname is the lower-cased original extension |
| Upload.AcceptedKeepsListedExtension | middleware/upload.js:51-80 | an accepted file is stored with exactly the extension listed for its MIME type |
| Upload.UpperCaseExtensionKept | middleware/upload.js:55-56 | with an upper-case extension, the base name keeps it, so "photo.JPG" is stored as `…_photo_JPG.jpg` |
| Upload.DestinationSpec | middleware/upload.js:37-50 | an authenticated user's files go to a directory of their own just below the media directory, different users to different directories; otherwise the media directory |
| Validation.HandleValidationErrors | middleware/validation.js:4-17 | the request proceeds iff there are no errors; otherwise 400 "Validation Error" with one detail per error, field, message and value kept |
| Validation.CharLength | middleware/validation.js:27 | isLength counts no more than the text's length, and exactly its length when it holds no variation selector |
| Validation.FindsOnFirstLineSpec | middleware/validation.js:28 | each lookahead succeeds iff a character of its class occurs before the first line terminator |
| Validation.PasswordSpec | middleware/validation.js:26-28 | a password passes iff it has 8..128 characters and a lower-case letter, an upper-case letter and a digit on its first line; at most two errors, each naming the field and the value |
| Validation.SecondLineDoesNotCount | middleware/validation.js:28 | a required character after a line terminator does not satisfy the lookahead |
| Validation.CodeSpec | middleware/validation.js:54-56 | a code passes iff it is exactly six decimal digits; a six-character code with a non-digit gets only the "only numbers" error |
| Validation.IssuedCodesPass | middleware/validation.js:54-56 | every code the controller issues passes both code checks |
| Validation.NameSpec | middleware/validation.js:30-33 | a name passes iff, trimmed, it has 2..50 characters, all ASCII letters or white space; a passing name starts and ends with a letter |
| Validation.GameTypeSpec | middleware/validation.js:87-88 | a game type passes iff it is one of the four validator names |
| Validation.GameTypesDisjointFromSchema | middleware/validation.js:129-130 | no game type the validator accepts is a game type of the score schema |
| Validation.ParseIntOfIntText | middleware/validation.js:132-134 | for text isInt accepts, parseInt gives its numeric value |
| Validation.ValidatedLimit | middleware/validation.js:132-134 | a limit that passes gives an effective limit equal to its value, in 1..100; no limit gives 10 |
| Validation.NumericFloat | middleware/validation.js:109-111 | every text isNumeric accepts matches the isFloat grammar |
| Validation.ScoreSpec | middleware/validation.js:109-111 | a score passes iff it is a non-negative numeral; a non-numeric score gets "Score must be a number" first |
| Validation.DescriptionSpec | middleware/validation.js:143-145 | an absent description or one of at most 500 characters (code points) passes; without variation selectors it passes iff it has at most 500 |
| Validation.SignupSpec | middleware/validation.js:20-36 | signup passes iff the e-mail is valid with 5..255 normalised characters, the password is strong and the trimmed name is good |
| Validation.LoginSpec | middleware/validation.js:38-47 | login passes iff the e-mail is valid and the password is non-empty, so every strong password passes with a valid e-mail |
| Validation.CodeChainsSpec | middleware/validation.js:49-83 | verification, forgot and reset pass iff their e-mail, code and new password checks pass |
| Validation.GameChainsSpec | middleware/validation.js:86-137 | start passes iff the game type is a validator name and each object field is absent or an object; end iff the session id is a Mongo id, the score a non-negative numeral and the objects as for start; leaderboard iff the game type is valid and the limit absent or an integer in 1..100 |
| Validation.LeaderboardRequestLimit | middleware/validation.js:128-137 | a leaderboard request that passes has an effective limit in 1..100 |
| Validation.UploadAndIdSpec | middleware/validation.js:140-156 | an upload passes iff its description passes; an id passes iff it is a Mongo id, otherwise 400 with the single error `Invalid <param>` |

## Left out

- Floating point: averages (`$avg`, `AVG`), `formattedScore` and any non-integer score or duration.
- parseFloat exponent underflow and overflow.
- Validation.ScoreSpec: does not model that an exponent can make parseFloat round a tiny negative value to -0 or a huge value to Infinity.
- Password hashing, JWT signing and verification, and mail delivery. Their outcomes are parameters.
- validator.js `isEmail`, `normalizeEmail` and `isMongoId`. They are opaque predicates given as inputs.
- MongoDB `populate` / `$lookup` and object ids. Ids are opaque strings.
- `limit` semantics beyond "0 means none, negative means its absolute value".
- The order of tied scores in SQL and MongoDB sorts. The model fixes one order; the lemmas only use score order.
- Case folding is ASCII-only. Strings are sequences of Unicode code points; UTF-16 code units are counted explicitly where the stored file name depends on them (`Upload.CodeUnits`).
- Inherited object keys ("constructor", "toString", …) as subscription names are modelled as unlisted.
- Non-string request values are modelled by their text. Values of fields inside JSON objects are not validated.
- Validation.NameSpec: the reported value of an absent name is modelled as "".
- Validation.ObjectErrors: the error for a gameData, deviceInfo or location that is not an object carries no value, where express-validator echoes the submitted value.
- AuthController.CheckCode: the code is taken as text. A code sent as a JSON number passes validation but never equals the stored string, so the controller answers 400; that case is not modelled.
- AuthController.CodeStore.VerifyEmail: takes the code as text; a numeric JSON code, answered 400 whatever its digits, is not modelled.
- AuthController.CodeStore.ResetPassword: takes the code as text; a numeric JSON code, answered 400 whatever its digits, is not modelled.
- The SQL schema is not part of this model. Ids, scores and durations are taken to be integer columns. Integer text with surrounding white space, values outside the 32-bit range and non-integer numbers are not modelled as PostgreSQL binds them, nor is overflow of SUM.
- The clock: `CURRENT_TIMESTAMP` and `new Date()` are the `now` parameter, and `updated_at` is not modelled.
- path.join normalisation of "..", "." and absolute user ids in the destination.
- Directory creation and the other multer wrappers: upload.single/array, error handling, `scanForViruses` and `cleanupUploadedFiles`. These are I/O.
- Concurrency: requests are handled one at a time, each method call being one request.
- The remaining authController handlers (signup, login, profile) and the routes and the server set-up, which are not part of this model.

## Findings

| source | as written | input that shows it | evidently intended | confidence | as-written member | corrected member |
|---|---|---|---|---|---|---|
| controllers/authController.js:198 | the User model is used at lines 113, 198 and 265 but never imported (lines 1-5), so each call throws and answers 500 | forgotPassword with any e-mail: 500, no code is ever stored, so verifyEmail and resetPassword can never match | look the user up in the imported model, store the reset code and let it be consumed once | not executed | AuthController.CodeStore.ForgotPasswordAsWritten | AuthController.CodeStore.ForgotPassword |
