# MovieMeter core, modelled in Dafny

MovieMeter is a Next.js movie-review site. This project models the parts of it that hold logic of their own.

- **Rate limiter** (`lib/rate-limit/index.ts`): fixed-window and per identifier, with the four limiters the application configures.
- **Cache** (`lib/cache/index.ts`): in-memory, with a time-to-live per entry.
- **Slugs** (`lib/utils/slug.ts`): URL slugs for movies.
- **Sanitiser** (`lib/sanitize/index.ts`): cleans user text before it is stored.
- **Reviews API** (`app/api/reviews/route.ts`): the request schema, the ordered answers of `POST`, the pagination of `GET` and the recomputation of a movie's statistics.
- **Profile update** (`app/api/user/update/route.ts`).
- **Environment checker** (`scripts/check-env.ts`): the env-file parser and loader, and the checker that sorts required variables into present and missing.
- **TMDB provider** (`lib/providers/tmdb.ts`): the URL helpers and the retry policy of its fetch.

How the source's forms are carried over:

- **Classes with in-place state.** The limiter and the cache are Dafny classes with a `map` field that their methods reassign.
- **Pure functions beside them.** Each state-changing method is specified by a pure step function, and the properties are proved as lemmas about those functions.
- **Pure string pipelines.** The slug and sanitiser code are functions.
- **Route handlers.** These are pure decision functions over an in-memory review or user table. Small classes (`ReviewStore`, `UserTable`, `ProcessEnv`) apply those decisions in place.
- **Loops.** The loops of `checkEnvVars`, `loadEnvFile`, `cleanup` and `fetchWithRetry` are `while`/`for` loops, proved against the functions that specify them.

Parameters and modelling conventions:

- **Parameters.** The clock is a `now` parameter in milliseconds. The network is a function from URL and attempt number to the attempt's outcome. The file system is a function from file name to optional contents. The date parser is a function from a release date to an optional year.
- **Strings** are sequences of characters. `toLowerCase`, `trim`, `\s` and `\w` are given their meaning on ASCII text (module `Text`).
- **JSON bodies** are a `Value` datatype (module `Json`).

Decisions where the source leaves a choice to the model:

- In `GET /api/reviews`, page numbers below 1 give a negative `skip`. The database refuses that and the handler answers 500, modelled as `ListFailed`.
- In the profile update, a body that is not JSON makes `req.json()` throw (app/api/user/update/route.ts:13), and a `null` body makes the destructuring on that line throw. Both are answered 500. So does a truthy `name` or `image` that is not a string, because it has no `trim` or `startsWith`. The user row that is missing from the table is also a 500 (`Failed`).
- `updateMovieStats` writes nothing when a movie has no visible review left. Any existing row stays as it was; the code does not delete it, and the model follows the code.

## Model

| member | source | states |
|---|---|---|
| RateLimit.CheckLimits | lib/rate-limit/index.ts:20-52 | a check changes only the identifier's entry; the answer carries that entry's window end; an admission answers `maxRequests - count`; a refusal answers 0 and leaves the table as it was; counts stay in 1..max |
| RateLimit.FreshWindow | lib/rate-limit/index.ts:24-36 | with no entry or `now > resetAt` the window restarts with count 1, ends at `now + windowMs` and is admitted with `maxRequests - 1` remaining; otherwise the window end is kept |
| RateLimit.CheckAtResetAtKeepsWindow | lib/rate-limit/index.ts:24 | a check at exactly `resetAt` still belongs to the old window (strict comparison) |
| RateLimit.CheckInsideWindow | lib/rate-limit/index.ts:38-51 | inside a window a check is refused iff `count >= maxRequests`; a refusal answers 0 and the old `resetAt` and changes nothing; an admission adds exactly one to the count |
| RateLimit.ResetThenCheck | lib/rate-limit/index.ts:54-56 | `reset` leaves every other identifier untouched, and the next check of the identifier opens a fresh window |
| RateLimit.RemainingNonNegative | lib/rate-limit/index.ts:20-52 | with `maxRequests >= 1`, the remaining count of an admitted check lies in `0..maxRequests-1` |
| RateLimit.CleanupInvisibleToCheck | lib/rate-limit/index.ts:58-65 | a sweep at an earlier or equal instant does not change what a later check answers |
| RateLimit.AdmittedInsideWindow | lib/rate-limit/index.ts:38-51 | within an open window whose count is `c`, at most `maxRequests - c` further checks are admitted |
| RateLimit.AtMostMaxPerWindow | lib/rate-limit/index.ts:20-52 | at most `maxRequests` checks of one identifier are admitted in one window |
| RateLimit.ConfiguredLimitersBounded | lib/rate-limit/index.ts:69-72 | the four configured limiters admit at most 5 reviews an hour, 20 comments an hour, 10 reports a day and 5 sign-ins per 15 minutes |
| RateLimit.ThreePerSecondScenario | lib/rate-limit/index.ts:20-52 | three checks in a 1 s window of 3 leave 2, 1, 0; the fourth is refused; another identifier is unaffected; after the window a fresh one opens |
| RateLimit.RateLimiter.constructor | lib/rate-limit/index.ts:14-18 | a new limiter has an empty table and the given window and ceiling |
| RateLimit.RateLimiter.Check | lib/rate-limit/index.ts:20-52 | the answer and the new table are those of `CheckLimits`; counts stay in range |
| RateLimit.RateLimiter.Reset | lib/rate-limit/index.ts:54-56 | the table loses exactly the identifier |
| RateLimit.SweepExpired | lib/rate-limit/index.ts:58-65 | `cleanup` keeps exactly the windows with `now <= resetAt`, each unchanged; `CleanupInvisibleToCheck` proves no later check can tell the difference |
| RateLimit.RateLimiter.Cleanup | lib/rate-limit/index.ts:58-65 | the loop leaves exactly the windows with `now <= resetAt`, unchanged |
| Cache.EffectiveTtl | lib/cache/index.ts:35 | `ttl || defaultTTL`: an absent or zero TTL falls back to the default, any other is used |
| Cache.Read | lib/cache/index.ts:19-32 | a missing key answers null and changes nothing; a stale entry answers null and is the only one removed; a fresh one answers its data and changes nothing |
| Cache.Write | lib/cache/index.ts:34-37 | `set` stores the data with expiry `now + ttl`, replaces any entry of the key and changes no other key |
| Cache.SetThenGet | lib/cache/index.ts:19-37 | a stored value is found until its expiry and not after; a negative TTL expires it at once |
| Cache.LastWriteWins | lib/cache/index.ts:36 | a second `set` of a key replaces both value and expiry |
| Cache.SetDeleteGet | lib/cache/index.ts:19-41 | `set`, `delete`, `get` answers null |
| Cache.CleanupInvisibleToGet | lib/cache/index.ts:48-55 | a sweep at an earlier or equal instant does not change what a later `get` answers |
| Cache.SweepExpired | lib/cache/index.ts:48-55 | `cleanup` keeps only unexpired entries, each unchanged (`SweepKeepsExactlyFresh`: all of them), and `CleanupInvisibleToGet` proves no later `get` can tell the difference |
| Cache.SweepKeepsExactlyFresh | lib/cache/index.ts:48-55 | a sweep keeps exactly the entries that are not stale, unchanged |
| Cache.CacheService.constructor | lib/cache/index.ts:11-17 | a new cache is empty and has the given default TTL, one hour when none is given |
| Cache.CacheService.Get | lib/cache/index.ts:19-32 | the answer and the new table are those of `Read` |
| Cache.CacheService.Set | lib/cache/index.ts:34-37 | the new table is that of `Write` |
| Cache.CacheService.Delete | lib/cache/index.ts:39-41 | the table loses exactly the key |
| Cache.CacheService.Clear | lib/cache/index.ts:43-45 | the table is empty |
| Cache.CacheService.Cleanup | lib/cache/index.ts:48-55 | the loop leaves exactly the entries that are not stale |
| Text.ToLower | lib/utils/slug.ts:4 | `toLowerCase` on ASCII: the same length, each character mapped by `LowerChar` |
| Text.Trim | lib/utils/slug.ts:5 | the result is no longer than the input, has no whitespace at either end, and is empty exactly when the input is all whitespace |
| Slug.DropNonWord | lib/utils/slug.ts:7 | keeps only word characters and hyphens, adds no upper case, keeps slug text as it is; `DropNonWordAppend` and `DropNonWordChar` state that every word character and hyphen is kept, in order, and every other character dropped |
| Slug.DropNonWordAppend | lib/utils/slug.ts:7 | the kept characters of two pieces one after the other are those of the first followed by those of the second |
| Slug.DropNonWordChar | lib/utils/slug.ts:7 | a word character or hyphen is kept and any other character dropped |
| Slug.SqueezeHyphens | lib/utils/slug.ts:8 | leaves no `--`, keeps the first character and slug characters, keeps text without `--` as it is; `SqueezeAppend`, `SqueezeRun` and `SqueezeHyphenRun` state that each run becomes one hyphen and the rest is kept |
| Slug.SqueezeAppend | lib/utils/slug.ts:8 | text that does not end in a hyphen is squeezed on its own, whatever follows it |
| Slug.SqueezeRun | lib/utils/slug.ts:8 | `k >= 1` hyphens before text not starting with a hyphen become exactly one hyphen |
| Slug.SqueezeHyphenRun | lib/utils/slug.ts:8 | for `w` not ending in `-`, `k >= 1` hyphens and `t` not starting with `-`, the result is `w` squeezed, one hyphen, then `t` squeezed |
| Slug.TrimLeadingHyphens | lib/utils/slug.ts:9 | removes exactly the leading hyphens, and keeps slug characters and the absence of `--` |
| Slug.TrimTrailingHyphens | lib/utils/slug.ts:10 | removes exactly the trailing hyphens, and keeps slug characters and the absence of `--` |
| Slug.HyphenateSpaces | lib/utils/slug.ts:6 | `\s+` → `-`: never longer than its input; `HyphenateRemovesSpace`, `HyphenateRun` and `HyphenateSpaced` state that each whitespace run becomes one hyphen and nothing else changes |
| Slug.HyphenateRemovesSpace | lib/utils/slug.ts:6 | no whitespace is left after the whitespace runs are replaced |
| Slug.HyphenateKeepsNoUpper | lib/utils/slug.ts:4-6 | the hyphenation brings in no upper-case letter |
| Slug.HyphenateKeepsNoSpace | lib/utils/slug.ts:6 | text without whitespace passes the hyphenation unchanged |
| Slug.Slugify | lib/utils/slug.ts:1-11 | the result contains only `a-z0-9_-`, never `--`, and no hyphen at either end; `SlugifySeparated` and `WordsBecomeHyphenated` state what titles of words and separators become |
| Slug.LowerTrimmedHasNoUpper | lib/utils/slug.ts:4-5 | after lower-casing and trimming there is no upper-case letter |
| Slug.Clean | lib/utils/slug.ts:7-10 | the result is no longer, has no `--` and no hyphen at either end, whatever the input; `CleanIsSlug` and `CleanKeepsSlug` state that it makes a slug of text without upper case and keeps one |
| Slug.CleanIsSlug | lib/utils/slug.ts:7-10 | the last four steps turn any lower-case text into a slug |
| Slug.SlugIsFixedPoint | lib/utils/slug.ts:1-11 | a slug passes every step of `slugify` unchanged |
| Slug.CleanKeepsSlug | lib/utils/slug.ts:7-10 | the last four steps leave a slug unchanged |
| Slug.SlugifyIdempotent | lib/utils/slug.ts:1-11 | `slugify(slugify(s)) == slugify(s)` |
| Slug.HyphenateSpacesAppend | lib/utils/slug.ts:6 | a prefix without whitespace passes the hyphenation unchanged |
| Slug.HyphenateRun | lib/utils/slug.ts:6 | a run of whitespace before a non-space character becomes one hyphen |
| Slug.HyphenateSpaced | lib/utils/slug.ts:6 | lower-case words separated by whitespace runs become the same words joined by single hyphens |
| Slug.LowerTrimSpaced | lib/utils/slug.ts:4-5 | lower-casing and trimming words separated by whitespace runs, with whitespace at either end, keeps the lower-cased words and the runs and drops the ends |
| Text.TrimStart | lib/utils/slug.ts:5 | removes a prefix of the text made only of whitespace, and what is left does not start with whitespace |
| Text.TrimEnd | lib/utils/slug.ts:5 | removes a suffix of the text made only of whitespace, and what is left does not end with whitespace |
| Slug.TrimSurround | lib/utils/slug.ts:5 | `trim` removes exactly the whitespace around text whose first and last characters are not whitespace |
| Slug.JoinIsSlug | lib/utils/slug.ts:7-10 | lower-case words joined by hyphens form a slug |
| Slug.SlugifySeparated | lib/utils/slug.ts:1-11 | for words of letters, digits and `_` with a separator between each two (no word character, at least one whitespace character or hyphen: `: `, ` - `, `--`), `slugify` joins the lower-cased words with single hyphens |
| Slug.HyphenateAppend | lib/utils/slug.ts:6 | two pieces are hyphenated on their own unless a whitespace run spans the join |
| Slug.HyphenateSeparator | lib/utils/slug.ts:6 | a separator hyphenated has no word character and at least one hyphen |
| Slug.DropSeparator | lib/utils/slug.ts:7 | what is kept of text without word characters is its hyphens, at least one when it has one |
| Slug.CleanSeparated | lib/utils/slug.ts:7-10 | the last four steps turn lower-case words with hyphenated separators between them into the words joined by single hyphens |
| Slug.SpiderManSlug | lib/utils/slug.ts:1-11 | "Spider-Man: No Way Home" becomes "spider-man-no-way-home" |
| Slug.WordsBecomeHyphenated | lib/utils/slug.ts:4-8 | for words of letters, digits and `_` separated by non-empty runs of whitespace, with any whitespace at either end, `slugify` joins the lower-cased words with single hyphens |
| Slug.SlugifyThrough | lib/utils/slug.ts:2-10 | when lower-casing, trimming and hyphenating already give a slug, that slug is `slugify`'s result |
| Slug.GenerateMovieSlug | lib/utils/slug.ts:13-28 | the movie slug starts with the title's slug |
| Slug.WithYear | lib/utils/slug.ts:16-27 | the base is returned as is iff no year is read from a non-empty release date; otherwise `-` and the year follow it |
| Slug.MovieSlugYear | lib/utils/slug.ts:13-28 | the movie slug equals the title slug iff there is no year (null, undefined, empty or unparsable date); otherwise it is the title slug, `-` and the year |
| Slug.WithYearIsSlug | lib/utils/slug.ts:20 | a non-empty slug followed by `-` and a non-negative year is a slug |
| Slug.MovieSlugIsSlug | lib/utils/slug.ts:13-28 | with a non-empty title slug and a non-negative year, the movie slug is a slug and a fixed point of `slugify` |
| Slug.AppendDigitsIsSlug | lib/utils/slug.ts:20 | a slug, a hyphen and digits form a slug |
| Slug.EmptyTitleLeadingHyphen | lib/utils/slug.ts:16-20 | when the title's slug is empty and a year is read, the movie slug is `-` and the year, so it starts with a hyphen and is not a well-formed slug |
| Slug.EmptyTitleIn2020 | lib/utils/slug.ts:16-20 | the empty title with a release date read as 2020 gets the slug `-2020` |
| Sanitize.StripTags | lib/sanitize/index.ts:9 | no `<` is left followed by a `>`; it brings in no `>`; the result is no longer |
| Sanitize.DecodeEntities | lib/sanitize/index.ts:12-17 | the result is no longer than the input (what is decoded is stated by the `Decode…` lemmas) |
| Sanitize.RemoveJavascript | lib/sanitize/index.ts:23 | the removal makes the text no longer, brings in no `>` and keeps tag-free text tag-free |
| Sanitize.HandlerMatch | lib/sanitize/index.ts:24 | a match of `on\w+\s*=` at the start is `on` in any case, a non-empty word run, whitespace and `=`, and nothing else; `HandlerMatchFinds` proves every such opening is matched in full |
| Sanitize.RemoveEventHandlers | lib/sanitize/index.ts:24 | the removal makes the text no longer, brings in no `>` and keeps tag-free text tag-free |
| Sanitize.TrimKeepsNoTag | lib/sanitize/index.ts:27 | trimming keeps text tag-free |
| Sanitize.NoTagMeans | lib/sanitize/index.ts:1-9 | the tag-free test, read one character at a time, holds exactly when no position holding `<` has a `>` at any later position |
| Sanitize.SanitizeInput | lib/sanitize/index.ts:5-30 | the result is no longer than the input, has no whitespace at either end and has no `<` followed later by `>`; empty input gives empty output |
| Sanitize.SanitizeWithFormatting | lib/sanitize/index.ts:36-40 | equals `sanitizeInput` on every input |
| Sanitize.StripTagsKeepsPlain | lib/sanitize/index.ts:9 | text without `<` passes the tag strip unchanged |
| Sanitize.DecodeKeepsPlain | lib/sanitize/index.ts:12-17 | text without `&` passes the decoding unchanged |
| Sanitize.RemoveJavascriptKeepsPlain | lib/sanitize/index.ts:23 | text without `j`/`J` passes the `javascript:` removal unchanged |
| Sanitize.RemoveEventHandlersKeepsPlain | lib/sanitize/index.ts:24 | text without `o`/`O` passes the handler removal unchanged |
| Sanitize.DecodeEscaped | lib/sanitize/index.ts:12-17 | entities are decoded once, `&amp;` last: `&amp;` followed by text without `&` gives `&` and that text, so `&amp;lt;` becomes `&lt;` |
| Sanitize.SanitizeEscaped | lib/sanitize/index.ts:5-30 | through the whole sanitiser, `&amp;` followed by such plain text comes out as `&` and the text |
| Sanitize.LaterStepsKeepPlain | lib/sanitize/index.ts:20-27 | plain text without whitespace at its ends passes the steps after the decoding unchanged |
| Sanitize.StripTagsRemovesTag | lib/sanitize/index.ts:9 | a tag from `<` to the first `>` after it is removed, and the text before it, which holds no `<`, is kept |
| Sanitize.StripTagsKeepsUnclosed | lib/sanitize/index.ts:9 | a `<` with no later `>` is kept: text without `>` passes the strip unchanged |
| Sanitize.DecodeLt | lib/sanitize/index.ts:13 | `&lt;` anywhere in text with no other `&` is decoded to `<`, the rest kept |
| Sanitize.DecodeGt | lib/sanitize/index.ts:14 | `&gt;` anywhere in text with no other `&` is decoded to `>`, the rest kept |
| Sanitize.DecodeQuot | lib/sanitize/index.ts:15 | `&quot;` anywhere in text with no other `&` is decoded to `"`, the rest kept |
| Sanitize.DecodeApos | lib/sanitize/index.ts:16 | `&#x27;` anywhere in text with no other `&` is decoded to `'`, the rest kept |
| Sanitize.RemoveJavascriptDrops | lib/sanitize/index.ts:23 | `javascript:` in any case at the start is removed and the search goes on after it |
| Sanitize.RemoveJavascriptKeeps | lib/sanitize/index.ts:23 | a character where `javascript:` does not start is kept and the search goes on after it |
| Sanitize.JavascriptReassembles | lib/sanitize/index.ts:23 | the removal is a single pass: `javajavascript:script:` becomes `javascript:` |
| Sanitize.HandlerMatchFinds | lib/sanitize/index.ts:24 | `on` in any case, a non-empty run of word characters, optional whitespace and `=` at the start are matched in full |
| Sanitize.RemoveEventHandlersKeeps | lib/sanitize/index.ts:24 | a character where no `on…=` match starts is kept and the search goes on after it |
| Sanitize.NoHandlerAt | lib/sanitize/index.ts:24 | text that does not start with `on` in any case has no match at its start |
| Sanitize.RemoveEventHandlersDrops | lib/sanitize/index.ts:24 | such an `on…=` at the start is removed and the search goes on after it |
| Sanitize.OnclickRemoved | lib/sanitize/index.ts:24 | `onClick =x` becomes `x` |
| Reviews.Conforms | app/api/reviews/route.ts:8-14 | the schema as a predicate on the JSON value; `ParseCreateReview` accepts exactly when it holds, and `ParseEncode` reads every accepted request back |
| Reviews.ParseCreateReview | app/api/reviews/route.ts:8-14 | a body is accepted iff tmdbId is a positive integer, rating an integer in 1..10, title absent or at most 200 characters, body 10..5000 characters and spoiler absent or boolean; the request carries those fields, spoiler defaulting to false |
| Reviews.ParseEncode | app/api/reviews/route.ts:8-14 | every request the schema can hand on is read back from its own JSON |
| Reviews.SumBounds | app/api/reviews/route.ts:176-190 | ratings in 1..10 sum to between their number and ten times it |
| Reviews.Visible | app/api/reviews/route.ts:178 | exactly the movie's reviews that are not hidden, never more than the table holds; `VisibleAppend` and `VisibleOne` state that they keep the table's order |
| Reviews.VisibleAppend | app/api/reviews/route.ts:30-52 | the visible reviews of two tables one after the other are those of the first followed by those of the second |
| Reviews.VisibleOne | app/api/reviews/route.ts:31-35 | one review is listed exactly when it is the movie's and not hidden |
| Reviews.CreatedListedFirst | app/api/reviews/route.ts:30-52 | after `POST` creates a review, the movie's visible list is that review followed by the earlier ones: it is first on page 1 (`orderBy createdAt desc`) and the total grows by one |
| Reviews.UpdateStats | app/api/reviews/route.ts:175-200 | the movie gains a row exactly when it has a visible review, and no row is removed; the row's contents are stated by `UpdateStatsRow` |
| Reviews.UpdateStatsOthers | app/api/reviews/route.ts:175-200 | `updateMovieStats` touches no other movie's row |
| Reviews.UpdateStatsIdempotent | app/api/reviews/route.ts:175-200 | recomputing a movie's row twice, with no review added in between, gives the statistics of one recomputation |
| Reviews.UpdateStatsRow | app/api/reviews/route.ts:175-200 | with visible reviews both counts become their number and the mean their mean rating; with none nothing is written and an existing row is kept |
| Reviews.MeanBounds | app/api/reviews/route.ts:176-190 | a sum between `n` and `10n` has a mean in 1..10 |
| Reviews.StatsStayInRange | app/api/reviews/route.ts:175-200 | recomputed statistics keep a mean in 1..10 and a count of at least one |
| Reviews.ThreeRatingsExample | app/api/reviews/route.ts:175-200 | visible ratings 8, 6 and 10 and a hidden 1 give mean 8.0 and counts 3 |
| Reviews.CeilDiv | app/api/reviews/route.ts:106 | `Math.ceil(x / d)`: the least `q` with `x <= q * d` |
| Reviews.Guard | app/api/reviews/route.ts:101-139 | after the limiter: 429 iff refused, else 500 iff the body is not JSON, else 400 iff it does not conform, else 409 iff a review exists; otherwise the parsed request is created |
| Reviews.PostReview | app/api/reviews/route.ts:82-173 | 401 iff no session; 403 iff banned; those two leave the limiter alone; only 201 changes the tables, prepending one review of the session user with a positive movie id and a rating in 1..10 for a movie they had not reviewed, and recomputing that movie's row |
| Reviews.SlotConsumed | app/api/reviews/route.ts:101-139 | every request past the ban check uses a limiter slot, even when then answered 400, 409 or 500 |
| Reviews.RetryAfter | app/api/reviews/route.ts:103-110 | `Math.ceil((resetAt - now) / 1000)`: the least number of whole seconds that reaches the end of the window |
| Reviews.RetryAfterCoversWindow | app/api/reviews/route.ts:103-110 | `retryAfter` is the window's remaining time in whole seconds, rounded up, and not negative |
| Reviews.InvalidBodyExactly | app/api/reviews/route.ts:112-120 | 400 iff the limiter admits the user and the JSON body does not conform |
| Reviews.NoSecondReview | app/api/reviews/route.ts:125-139 | a user who already reviewed the movie, hidden or not, gets no second review (409 once admitted) |
| Reviews.NewReview | app/api/reviews/route.ts:142-160 | movie, user, rating and spoiler flag come from the request and the review is not hidden; the body is sanitised (tag-free, no longer); a title is kept exactly when one was given and is not empty, and is sanitised likewise |
| Reviews.CreatesReview | app/api/reviews/route.ts:142-163 | a well-formed request is created with sanitised body, sanitised title or none when absent or empty, not hidden, and the movie's statistics recomputed |
| Reviews.PostKeepsTablesValid | app/api/reviews/route.ts:82-173 | `POST` keeps one review per movie and user, ratings in 1..10 and statistics in range |
| Reviews.PrependKeepsTable | app/api/reviews/route.ts:142-160 | a new review for a movie and user without one keeps the table unique and its ratings in range |
| Reviews.ListReviews | app/api/reviews/route.ts:16-80 | 400 iff tmdbId is missing or 0; 500 iff the page makes `skip` negative; otherwise the page echoes page and `min(limit, 50)`, `total` counts the visible reviews and `totalPages` is `ceil(total / limit)` |
| Reviews.PageBounds | app/api/reviews/route.ts:30-71 | a page holds at most `limit` visible reviews of the movie, and is empty iff it lies past the last page |
| Reviews.PastLastPage | app/api/reviews/route.ts:53-70 | page `p` starts before the end iff `p <= totalPages` |
| Reviews.PageContents | app/api/reviews/route.ts:30-55 | position `j` of a page holds the visible review at `skip + j` |
| Reviews.PagesCoverVisible | app/api/reviews/route.ts:30-71 | every visible review appears on page `i / limit + 1` at position `i % limit` |
| Reviews.ReviewStore.constructor | app/api/reviews/route.ts:142-163 | the store starts empty and valid |
| Reviews.ReviewStore.Post | app/api/reviews/route.ts:82-173 | with the review limiter of five per hour, the answer, limiter table, reviews and statistics are those of `PostReview`; the tables stay valid |
| Reviews.ReviewStore.UpdateMovieStats | app/api/reviews/route.ts:175-200 | the statistics become those of `UpdateStats`; the reviews are unchanged |
| Reviews.ReviewStore.List | app/api/reviews/route.ts:16-80 | the answer is that of `ListReviews` |
| UserUpdate.Validate | app/api/user/update/route.ts:15-28 | accepted iff the name is a string of at least 2 characters once trimmed and the image is falsy or an allowed path; then the trimmed name and the image or none are returned; a falsy name is refused |
| UserUpdate.UpdateProfile | app/api/user/update/route.ts:7-52 | 401 iff no session; only 200 changes the table, and then only the session user's name and image, to what `Validate` accepted |
| UserUpdate.ShortNameRefused | app/api/user/update/route.ts:15-20 | a missing, empty or short trimmed name is answered 400 whatever the image |
| UserUpdate.NameCheckedFirst | app/api/user/update/route.ts:15-28 | the name's answer does not depend on the image |
| UserUpdate.ImageRule | app/api/user/update/route.ts:23-36 | with a good name, a non-empty image that starts with neither `http` nor `/uploads/` is answered 400; an empty one is stored as none; an allowed one is stored |
| UserUpdate.ValidateStrings | app/api/user/update/route.ts:15-28 | the verdict for string fields with a long enough name |
| UserUpdate.StoredName | app/api/user/update/route.ts:30-36 | the stored name is the trimmed name sent, of at least two characters |
| UserUpdate.StoredRow | app/api/user/update/route.ts:30-44 | the answer echoes the stored name and image; the row's email and ban flag are kept |
| UserUpdate.UpdateIdempotent | app/api/user/update/route.ts:30-36 | sending the same update twice changes nothing more |
| UserUpdate.UserTable.constructor | app/api/user/update/route.ts:30-36 | the table holds the given rows |
| UserUpdate.UserTable.Update | app/api/user/update/route.ts:7-52 | the answer and new table are those of `UpdateProfile` |
| Text.Split | scripts/check-env.ts:22 | `split(sep)`: at least one piece, none holding the separator; `SplitJoin` proves `join` undoes it |
| Text.Join | scripts/check-env.ts:23 | `join(sep)`: the first word, then the separator and the join of the rest; `SplitJoin` ties it to `Split` |
| Text.ReplaceAll | lib/sanitize/index.ts:12-17 | `replace(/pat/g, rep)` for a literal pattern: never longer when `rep` is no longer than `pat`; `ReplaceAllAbsent` and `ReplaceAllKeepsPrefix` state what it leaves alone |
| Text.SplitJoin | scripts/check-env.ts:22-23 | joining the pieces of `split(sep)` with `sep` gives the text back |
| CheckEnv.StripQuotes | scripts/check-env.ts:23 | quote stripping never lengthens the value |
| CheckEnv.StripQuotesOfQuoted | scripts/check-env.ts:23 | one leading and one trailing quote of either kind are removed, matching or not |
| CheckEnv.StripQuotesOfPlain | scripts/check-env.ts:23 | a value without a quote at either end is kept |
| CheckEnv.ParseLine | scripts/check-env.ts:19-23 | a line is used iff, trimmed, it is non-empty, not a comment and holds `=`; the key is the untrimmed text before the first `=`, the value everything after it, quotes stripped |
| CheckEnv.KeyAndValue | scripts/check-env.ts:22-23 | the first piece is the text before the first `=` and the rest joined with `=` is all the text after it |
| CheckEnv.ApplyLine | scripts/check-env.ts:21-27 | a line removes no variable and changes none that is set; `ApplyLineEffect` adds that only the line's key is written, with its value |
| CheckEnv.ApplyLines | scripts/check-env.ts:19-28 | the lines applied in order remove no variable; `SetValuesKept` and `ApplyLinesIdempotent` state that set values survive and a second pass changes nothing |
| CheckEnv.ApplyLineEffect | scripts/check-env.ts:24-26 | a line never removes or overwrites a set variable; a non-empty key is present afterwards; only the line's key can change, to the line's value |
| CheckEnv.SetValuesKept | scripts/check-env.ts:19-28 | a value that is set survives every line of the file |
| CheckEnv.ApplyLinesIdempotent | scripts/check-env.ts:19-28 | applying the same lines again changes nothing |
| CheckEnv.LoadFrom | scripts/check-env.ts:11-35 | the name returned is that of a readable file; none is returned iff no file can be read, and then the environment is unchanged |
| CheckEnv.FirstReadableWins | scripts/check-env.ts:12-34 | only the first readable file is loaded |
| CheckEnv.LoadTwiceIsLoadOnce | scripts/check-env.ts:38-63 | loading the files a second time leaves the environment as the first load did |
| CheckEnv.PresentOf | scripts/check-env.ts:50-61 | the set variables of a category in their order; `Membership` and `PartitionExact` pin it down |
| CheckEnv.MissingOf | scripts/check-env.ts:50-61 | the unset variables of a category in their order; `Membership` and `PartitionExact` pin it down |
| CheckEnv.Membership | scripts/check-env.ts:50-61 | a variable is listed as present iff required and set, as missing iff required and not set |
| CheckEnv.PartitionExact | scripts/check-env.ts:50-61 | present and missing together hold the category's variables, no more and no fewer |
| CheckEnv.PresentOrMissing | scripts/check-env.ts:54-59 | each required variable lands in exactly one of the two lists |
| CheckEnv.SortCategory | scripts/check-env.ts:54-60 | the inner loop builds exactly the present and missing lists of the category |
| CheckEnv.Partition | scripts/check-env.ts:50-61 | the outer loop sorts every category |
| CheckEnv.ExitCode | scripts/check-env.ts:70-119 | the code is 0 iff no category misses a variable, 1 otherwise |
| CheckEnv.ExitCodeMeaning | scripts/check-env.ts:50-119 | no category misses a variable iff every required variable is set |
| CheckEnv.NoneMissing | scripts/check-env.ts:54-59 | when every variable is set none is missing |
| CheckEnv.Masked | scripts/check-env.ts:80 | a name containing `PASSWORD` or `SECRET`; `Display` shows twenty bullets for it |
| CheckEnv.Display | scripts/check-env.ts:80-82 | names with PASSWORD or SECRET show twenty bullets; others at most the first 30 characters of the value, nothing when unset |
| CheckEnv.ProcessEnv.constructor | scripts/check-env.ts:24-26 | the environment holds the given variables |
| CheckEnv.ProcessEnv.LoadEnvFile | scripts/check-env.ts:11-35 | the environment and the name returned are those of `LoadFrom` over `.env.local` then `.env` |
| CheckEnv.ProcessEnv.ApplyContent | scripts/check-env.ts:17-28 | the line loop applies the file's lines in order |
| CheckEnv.ProcessEnv.CheckEnvVars | scripts/check-env.ts:46-120 | the exit code is 0 or 1, and 0 iff every required variable was set when the check began; the env file is loaded again |
| CheckEnv.ProcessEnv.Run | scripts/check-env.ts:38-124 | after the load, the exit code is 0 iff every required variable is set |
| Tmdb.ImageUrl | lib/providers/tmdb.ts:168-176 | null iff the path is null or empty; otherwise the image base, `/`, the size and the path |
| Tmdb.GetImageUrl | lib/providers/tmdb.ts:168-171 | the image URL at an accepted size, `w500` by default |
| Tmdb.GetPosterUrl | lib/providers/tmdb.ts:173-176 | the image URL at an accepted poster size, `w500` by default |
| Tmdb.ParseImageUrl | lib/providers/tmdb.ts:168-176 | a URL read back gives a size and a non-empty path that build that URL |
| Tmdb.SizeRecognised | lib/providers/tmdb.ts:170 | no size name is a prefix of another's, so a size name followed by a path is read as that size |
| Tmdb.ImageUrlRoundTrip | lib/providers/tmdb.ts:168-176 | every image URL is read back as the size and path it was built from |
| Tmdb.RequestUrl | lib/providers/tmdb.ts:75 | the base URL and endpoint, then one separator, `api_key=` and the key; `RequestUrlHasOneQuery` and `RequestUrlEndsWithKey` fix the separator |
| Tmdb.RequestUrlHasOneQuery | lib/providers/tmdb.ts:75 | with a base and key free of `?` and at most one `?` in the endpoint, the URL has exactly one `?` |
| Tmdb.RequestUrlEndsWithKey | lib/providers/tmdb.ts:75 | the URL ends with `api_key=` and the key, after `&` when the endpoint has `?` and after `?` otherwise |
| Tmdb.FetchSpec | lib/providers/tmdb.ts:66-112 | the missing-key error exactly when the key is empty, and at most `retries` requests; `AttemptsAndBackoff`, `FirstOkReturned`, `AllFailed` and `ThrowsOnlyLast` state its outcomes |
| Tmdb.Retry | lib/providers/tmdb.ts:77-111 | at most the remaining number of attempts are made, each wait follows an attempt, and the `k`-th wait lasts `delay * (i + k + 1)`; it never reports a missing key |
| Tmdb.AttemptsAndBackoff | lib/providers/tmdb.ts:66-111 | an empty key fails before any request; at most `retries` requests; the `k`-th wait lasts `delay * (k + 1)` |
| Tmdb.FirstOkReturned | lib/providers/tmdb.ts:104 | the first ok body is returned after exactly as many requests as it took, with one wait after each earlier one |
| Tmdb.AllFailed | lib/providers/tmdb.ts:84-111 | when nothing succeeds all attempts are made; a final 429 gives the "after retries" error, a final other failure is rethrown |
| Tmdb.ThrowsOnlyLast | lib/providers/tmdb.ts:105-108 | an error is thrown only from the last attempt, as that attempt's failure |
| Tmdb.FetchWithRetry | lib/providers/tmdb.ts:66-112 | the loop's result, number of requests and waits are those of the retry specification |

## Left out

- The `setInterval` timers that call `cleanup` every 5 minutes for the limiters (300000 ms, lib/rate-limit/index.ts:75-82) and every 10 minutes for the cache (600000 ms, lib/cache/index.ts:61-65) are background scheduling. `cleanup` is modelled as an explicit operation.
- Prisma, next-auth and `fetch` are replaced by in-memory tables, a session parameter and an attempt-outcome function. Database failures other than a negative `skip` and a missing user row are not modelled.
- `avgRating` is an exact `real` (sum over count), not an IEEE double.
- `new Date(releaseDate).getFullYear()` is the parameter `yearOf`.
- Unicode case mapping and Unicode whitespace are not modelled. Text is read as ASCII.
- In `fetchWithRetry`, the error text built from the status or the error JSON (lib/providers/tmdb.ts:91-99) is abstracted as the failure's message. The sleeps are recorded as durations, not waited.
- The `revalidate` fetch option (lib/providers/tmdb.ts:80) is not modelled.
- In `check-env.ts`, console output, `padEnd` and the exact printed layout are not modelled. `Display` gives the value that would be printed.
- `parseInt` yielding `NaN` in `GET /api/reviews` is not modelled. The parameters are taken as integers, with a missing `tmdbId` read as 0.
- Reviews.ListReviews: requires `limit >= 1`. A zero or negative `limit` parameter, which the database would refuse or answer with a division by zero in `totalPages`, is not modelled.
- The `TMDBProvider` constructor (lib/providers/tmdb.ts:57-64) reads the key from the environment and warns. The key is a parameter of `FetchWithRetry`.
- The TMDB endpoint wrappers (`getTrending`, `searchMovies` and the like) are not modelled. Each only passes a path to `fetchWithRetry`.
- The cache-aside movie routes are not modelled. They only compose a key and call the cache and the provider.
- Sanitize.SanitizeInput: does not promise that no `javascript:` or `on…=` remains. The removals are single-pass, so `javajavascript:script:` reassembles `javascript:`. The contract states only length, trimming and the absence of tags.
- The `include` of the author relation in `GET` is left out: the reviews themselves are returned. The ordering by `createdAt` is modelled by keeping the table newest first (`POST` prepends, `Visible` keeps the order), which `CreatedListedFirst` states; timestamps themselves are not modelled.
