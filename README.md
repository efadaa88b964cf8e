# Report analytics core, modelled in Dafny

The repository is a small work-report tracker. Team members send free-text
reports through a Telegram bot. The server stores each report in SQLite's
`reports` table together with:

- a task type: `accounts`, `chat`, `transfers`, `skip` or `other`;
- a low-effort ("suspicious") flag;
- a repeat score against the author's last five reports.

A browser dashboard shows per-user and team-wide summaries.

This project models the logic of that pipeline:

- `database.js`: the text heuristics (`classifyTask`, `isSuspicious`,
  `normalizeText`, `calcRepeatScore`), the two operations that change the store
  (`ensureUserByTelegram`, `addReport`) and the two summaries (`summaryForUser`,
  `globalSummary`).
- `public/script.js`: the pure presentation rules of the dashboard
  (`escapeHtml`, `formatDate`, the growth-chart merge, and the per-user cards'
  sort, top badge and role norm).

Modules, in dependency order:

- `Wrappers` (`wrappers.dfy`): `Option` and `Result`.
- `JsText` (`jstext.dfy`): the JavaScript string primitives the code relies on.
  - `toLowerCase` is a fixed character map over the Basic Latin capitals and the
    Cyrillic capitals U+0400–U+042F.
  - `\s` is the ECMAScript whitespace set.
  - `trim` and `replace(/\s+/g, ' ')`.
  - A regex alternation without anchors is substring containment.
  - `String(n)` for integers, with a parser proved to invert it.
  - The string order `Array.prototype.sort()` uses, compared character by
    character.
- `Sorting` (`sorting.dfy`): a stable descending sort by an integer key, as a
  function and as an in-place array method proved to compute it. This is the
  ordering `Array.prototype.sort` with a numeric comparator produces, and the one
  `ORDER BY ... DESC` is assumed to produce. Also sums over sequences, invariant
  under permutation.
- `Analytics` (`analytics.dfy`): `classifyTask`, `isSuspicious`,
  `normalizeText` and the repeat ratio.
- `Ledger` (`ledger.dfy`): the two tables as sequences in a class `Store`. Each
  SQL query is a function over them. The class has the store-changing methods,
  the `calcRepeatScore` loop and the two summaries with their loops.
- `Html` (`html.dfy`), `Dates` (`dates.dfy`), `Growth` (`growth.dfy`) and
  `UserStats` (`userstats.dfy`): the dashboard helpers.

The tables are sequences in insertion (rowid) order.
`ORDER BY created_at DESC LIMIT n` is the first `n` rows of a stable
descending sort, so rows with equal timestamps keep insertion order. SQLite
does not promise that order; the model fixes it. Identifiers come from a
counter, `nextId`. The clock value is a parameter.
`Object.entries(byUser)` lists keys in insertion order, because the user ids are
UUID strings, not integer-like keys. Accordingly `byUser` is a sequence of
entries that is bumped in place.

Summaries are recomputed from the stored rows on every call.

## Model

| member | source | states |
|---|---|---|
| Analytics.ClassifyTask | database.js:146-154 | the classifier: the text, or `''` when missing, lower-cased and tested against the four keyword alternations in order; its properties are the rows below |
| Analytics.ClassifyTaskOfEmpty | database.js:147 | a missing or empty text is classified `other` |
| Analytics.AccountKeywordWins | database.js:148 | a text containing an account keyword in any letter case (a stretch that lower-cases to the keyword) is `accounts`, whatever else it contains |
| Analytics.ChatKeywordBeatsLaterRules | database.js:149 | without an account keyword, a chat keyword in any letter case gives `chat`, even with transfer or skip words present |
| Analytics.TransferKeywordBeatsSkip | database.js:150 | without account or chat keywords, a transfer keyword in any letter case gives `transfers`, even with skip words present |
| Analytics.SkipKeywordBeatsOther | database.js:151 | without account, chat or transfer keywords, a skip word in any letter case gives `skip` |
| Analytics.NoKeywordIsOther | database.js:148-153 | a text with no keyword of any of the four rules gives `other` |
| Analytics.ClassifyTaskIgnoresCase | database.js:147-151 | a text and its lower-cased form get the same label |
| Analytics.IsSuspicious | database.js:156-164 | the detector: missing or empty text, trimmed length below 15, or a template phrase in the lower-cased text; its properties are the rows below |
| Analytics.IsSuspiciousOfMissing | database.js:157 | a missing text is flagged |
| Analytics.ShortTextIsSuspicious | database.js:158-159 | every text shorter than 15 characters is flagged |
| Analytics.PaddedShortTextIsSuspicious | database.js:158-159 | a text that is whitespace outside a stretch of fewer than 15 characters is flagged, however much padding surrounds it: the length is that of the trimmed text |
| Analytics.LongPlainTextIsNotSuspicious | database.js:156-164 | a text of at least 15 trimmed characters without a template phrase is not flagged |
| Analytics.TemplatePhraseIsSuspicious | database.js:161-162 | a template phrase in any letter case flags the text, whatever its length |
| Analytics.NormalizeText | database.js:180-182 | the result has no whitespace at either end, only plain spaces as whitespace, never two in a row, and no upper-case letters |
| Analytics.NormalizeTextIdempotent | database.js:180-182 | normalising a normalised text changes nothing |
| Analytics.NormalizeTextKeepsNonSpace | database.js:180-182 | normalising keeps every non-whitespace character, lower-cased, in order; only whitespace is dropped or replaced |
| Analytics.IsRepeat | database.js:173-175 | one history text counts when it is non-empty and normalises to the candidate's normal form |
| Analytics.RepeatHasSameNonSpace | database.js:173-175 | a history text that counts as a repeat has the candidate's characters, apart from whitespace and letter case, in the same order |
| Analytics.CountMatches | database.js:171-176 | the number of history texts that count as repeats, never more than the history's length |
| Analytics.RepeatRatio | database.js:166-178 | the score lies in [0,1] and is 0 without history |
| Analytics.CountMatchesConcat | database.js:171-176 | the match count of two stretches of history is the sum of their counts |
| Analytics.EmptyEntryNeverMatches | database.js:173 | an empty history text, at any position, adds no match |
| Analytics.EmptyEntryLowersRatio | database.js:173-177 | an empty history text still counts in `recent.length`: the score is the other entries' matches over their number plus one |
| Analytics.RepeatRatioAllRepeats | database.js:170-177 | when every history text is non-empty and normalises to the candidate's form the score is exactly 1 |
| Analytics.NoRepeatsCountNone | database.js:172-176 | when no history text repeats the candidate the match count is 0 |
| Ledger.RepeatScore | database.js:169-177 | the early return and the loop compute the repeat ratio of the history read |
| Ledger.CountRepeats | database.js:171-176 | the loop's counter equals the number of non-empty history texts whose normalised form equals the candidate's |
| Ledger.Store.CalcRepeatScore | database.js:166-178 | the score is the repeat ratio of the user's newest five texts, in [0,1] |
| Ledger.RecentTexts | database.js:168 | the history query returns at most five texts |
| Ledger.OfUser | database.js:114 | `WHERE user_id = ?`: exactly the rows of that user |
| Ledger.OfUserMultiset | database.js:114 | every row of the user is kept as often as the table holds it, and no other row |
| Ledger.OfUserAppend | database.js:114 | the filter reads the table in order: the rows of a concatenation are those of the first part, then those of the second |
| Ledger.Take | database.js:114 | `LIMIT n`: the first `n` rows, or all of them when there are fewer |
| Ledger.Newest | database.js:114 | `ORDER BY created_at DESC LIMIT n`: at most `n` rows, taken from the stable descending sort by `created_at` |
| Ledger.ReportsForUser | database.js:113-115 | `listReportsForUser`: the newest `n` rows of the user; its properties are stated by `ReportsForUserSound` |
| Ledger.ReportsForUserSound | database.js:113-115 | exactly `min(n, own rows)` of the user's own rows, newest first; a sub-multiset of them, all of them when there are no more than `n`, and no omitted row newer than a returned one |
| Ledger.UsernameTaken | database.js:13 | `username UNIQUE`: a non-null username some stored user already holds; inserting it fails, as `EnsureUserByTelegram` states |
| Ledger.NullIfFalsy | database.js:82 | `value \|\| null` stores a name exactly when it is present and non-empty, unchanged |
| Ledger.FindByTelegram | database.js:77 | the lookup finds a user with that Telegram id, and finds none exactly when no user has it |
| Ledger.FindAfterInsert | database.js:81-83 | after inserting an unknown Telegram id, the lookup finds the inserted row |
| Ledger.Store.EnsureUserByTelegram | database.js:76-84 | a known Telegram id returns the stored user and changes nothing; an unknown one inserts exactly one row with empty names stored as `NULL` and returns the names as given; a taken username fails the insert and changes nothing |
| Ledger.Flag | database.js:104 | `? 1 : 0`: the flag is 1 exactly when the condition holds, and 0 otherwise |
| Ledger.Enrich | database.js:101-104 | the inserted row has `length = text.length`, the task type and a 0/1 suspicious flag derived from its text, and the given score |
| Ledger.Store.AddReport | database.js:99-111 | the score is computed from the history before the insert; exactly one row with a fresh id is appended; users and all earlier rows are unchanged |
| Ledger.SuspiciousCount | database.js:188 | `reports.filter(r => r.suspicious).length`: never more than the number of reports |
| Ledger.Average | database.js:189 | `total / Math.max(1, count)`: the total itself when there are no reports, otherwise the value that times `count` gives the total |
| Ledger.TaskDist | database.js:203-206 | the `taskDist` object the loop builds; its properties are stated by `TaskDistCounts` and `TaskDistSum` |
| Ledger.TaskDistCounts | database.js:203-206 | the histogram counts each task type as often as it occurs and has a key for exactly the types that occur |
| Ledger.TaskDistSum | database.js:203-206 | the histogram's values sum to the number of reports |
| Ledger.SummaryOf | database.js:186-214 | the summary of the rows read: count, suspicious count, average length and task histogram; its properties are stated by `SummaryOfSound` |
| Ledger.SummaryOfSound | database.js:186-189 | count, a histogram summing to it, a suspicious count no larger than it, the average length, and average 0 without reports |
| Ledger.Store.SummaryForUser | database.js:185-215 | the loop builds the summary of the user's newest 1000 reports; the histogram sums to the count; the suspicious count is at most the count; average 0 when empty |
| Ledger.Bump | database.js:223 | `byUser[id] = (byUser[id] \|\| 0) + 1` on the entries in key-insertion order: the number of entries grows by at most one; which case applies is stated by `BumpGrows` |
| Ledger.BumpGrows | database.js:223 | an entry is added exactly when the user has no entry yet |
| Ledger.BumpEntries | database.js:223 | bumping a user adds one entry for that user if it had none, and leaves the number of entries of every other user unchanged |
| Ledger.ByUser | database.js:221-224 | the `byUser` entries after the loop; their properties are stated by `ByUserSound` |
| Ledger.ByUserSound | database.js:221-224 | the per-user counts are each user's number of reports, sum to the number of reports, and there is one entry per user that has reports |
| Ledger.Leaderboard | database.js:226-227 | the entries sorted by descending count; their properties are stated by `LeaderboardSound` |
| Ledger.LeaderboardCounts | database.js:226-227 | every leaderboard entry holds exactly its user's number of reports |
| Ledger.LeaderboardSound | database.js:226-227 | each entry holds its user's report count; the counts sum to the reports read; one entry per user; ordered by non-increasing count |
| Ledger.Store.GlobalSummary | database.js:217-229 | the number of users, the number of reports read (newest 1000), and the leaderboard: each entry its user's count, counts summing to the reports read, one entry per distinct user, non-increasing order |
| Sorting.SortDescBy | database.js:227 | the stable descending sort by a numeric key that `sort((a,b) => key(b) - key(a))` produces and `ORDER BY ... DESC` is assumed to produce; a permutation, sorted and stable by the three rows below |
| Sorting.SortDescByPermutation | database.js:227 | sorting is a permutation |
| Sorting.SortDescBySorted | database.js:227 | the sorted sequence is ordered by non-increasing key |
| Sorting.SortDescByStable | public/script.js:910-914 | the sort is stable: for every key, the elements with that key appear in the output in their input order |
| Sorting.SortDescInPlace | public/script.js:910-914 | the in-place sort leaves the array equal to the stable descending sort of its old contents |
| Html.Falsy | public/script.js:14 | `!text`: `undefined`, `null`, `false`, `0`, `NaN` and `''` are falsy |
| Html.ToJsString | public/script.js:15 | `String(text)` for the values the dashboard passes, integers in decimal |
| Html.EscapeChar | public/script.js:15 | `& < > "` become entities; any other character, the apostrophe included, is copied unchanged; no replacement contains `<`, `>` or `"` |
| Html.Escape | public/script.js:15 | the `replace` over the whole string, one replacement per character; its properties are the rows below |
| Html.EscapeHtml | public/script.js:13-16 | `escapeHtml`: the empty string for falsy values other than `0`, otherwise the escaped `String` form |
| Html.EscapeHtmlFalsy | public/script.js:14 | every falsy value except `0` gives the empty string; `0` gives `"0"` |
| Html.EscapeHasNoMarkup | public/script.js:15 | the output contains no `<`, `>` or `"` |
| Html.EscapeLonger | public/script.js:15 | the output is never shorter than the input |
| Html.EscapeUnchanged | public/script.js:15 | a string is left as it is if and only if it contains none of `& < > "` |
| Html.UnescapeEscape | public/script.js:15 | decoding the entities gives the input back, so nothing is lost |
| Html.EscapeTwice | public/script.js:15 | escaping twice equals escaping once if and only if the input holds none of `& < > "`; any of them yields an `&` that is escaped again |
| Dates.PadStart2 | public/script.js:20-21 | `padStart(2, '0')`: a text of two or more characters is unchanged; a shorter one gets leading zeros up to length two and ends with the original text |
| Dates.TwoDigits | public/script.js:20-21 | month and day are padded to exactly two digits |
| Dates.FormatDate | public/script.js:18-23 | `Y-MM-DD`: the year's decimal text, a dash, two digits, a dash, two digits |
| Dates.FormatDateRoundTrip | public/script.js:18-23 | reading the string back gives the year, the zero-based month (the field holds month + 1) and the day |
| Growth.DatesOf | public/script.js:656-657 | the `date` of each point of a series, in order |
| Growth.InsertLabel | public/script.js:656-657 | adding a date to the set of labels adds exactly that date |
| Growth.AddLabels | public/script.js:655-659 | the labels hold exactly the dates added and those already present |
| Growth.AddLabelsAscending | public/script.js:655-659 | the labels are strictly ascending in string order, so duplicate-free |
| Growth.AscendingUnique | public/script.js:659 | a strictly ascending list is fixed by its elements, so the labels are the sorted union |
| Growth.FindTotal | public/script.js:662-663 | `find(...)`: the first point with the date gives its total; no such point gives 0 |
| Growth.Series | public/script.js:661-669 | `labels.map(...)` for one series: one value per label |
| Growth.MergeGrowth | public/script.js:655-669 | the labels and both data rows; their properties are stated by `MergeGrowthSound` |
| Growth.MergeGrowthSound | public/script.js:655-669 | labels are exactly the dates of either series, ascending and without repeats; both rows have one value per label; a date missing from a series gives 0 in it |
| UserStats.OrZero | public/script.js:911-912 | `value \|\| 0` for the optional counts: a missing count is 0, a present one is kept; its use is stated by `Total` |
| UserStats.Total | public/script.js:911-912 | a missing count is taken as 0 in the total |
| UserStats.TopRank | public/script.js:922-923 | the badge is shown if and only if the index is below 3 and the total above 20, and it reads index + 1 |
| UserStats.RoleNorm | public/script.js:925-936 | a traffer's norm is met if and only if leads ≥ 10; a beginner gets the accounts-per-day norm; `Тим Лид` and `⭐️ Раф` have no obligation; every other role gets no norm line |
| UserStats.NameOrUnknown | public/script.js:943 | `user.username \|\| 'Unknown'` |
| UserStats.OrElse | public/script.js:945 | `value \|\| fallback` for the role and the Instagram name: the fallback when the value is missing or empty, otherwise the value; its use is stated by `CardEscaping` |
| UserStats.CardFor | public/script.js:917-945 | the card of one row: escaped name, role as stored or `Не назначена`, escaped Instagram name or `—`, counts, badge and norm; what it escapes is stated by `CardEscaping` |
| UserStats.CardEscaping | public/script.js:943-945 | the name and the Instagram name on a card hold no `<`, `>` or `"`; a non-empty role is inserted exactly as stored, unescaped |
| UserStats.CardsOf | public/script.js:917-923 | one card per row, in order, each built from its row and index |
| UserStats.TopBadgesPrefix | public/script.js:922 | on rows sorted by total the badges go to a prefix of at most three cards, ranked 1, 2, 3 |
| UserStats.RenderCards | public/script.js:916-943 | the `html +=` loop produces the cards of the rows in order |
| UserStats.RenderStats | public/script.js:904-943 | an empty list shows "no data"; otherwise the array is sorted in place, stably by descending total, and the cards are those of the sorted rows |
| JsText.IsSpace | database.js:181 | `\s`: the ECMAScript whitespace and line-terminator characters; what trimming and collapsing do with them is stated by the rows below |
| JsText.ToLowerCase | database.js:147 | `toLowerCase`: same length, each character mapped by the Latin and Cyrillic case map |
| JsText.ToLowerCaseIdempotent | database.js:147 | `toLowerCase` gives lower-case text, so applying it twice equals once |
| JsText.Contains | database.js:148-151 | an unanchored regex test for one literal: the pattern occurs at some offset; stated by `ContainsIgnoringCase` |
| JsText.ContainsAny | database.js:148-151 | an alternation `a\|b\|c` tested without anchors: some alternative occurs; stated by `ContainsIgnoringCase` and the keyword rows |
| JsText.ContainsIgnoringCase | database.js:148-151 | testing a lower-case pattern against the lower-cased text finds it at any stretch that lower-cases to the pattern, so the match is case-insensitive |
| JsText.Trim | database.js:158 | `trim`: the result has no whitespace at either end |
| JsText.TrimRemovesOnlySpace | database.js:158 | `trim` keeps a contiguous slice and removes whitespace only |
| JsText.CollapseSpaces | database.js:181 | `replace(/\s+/g, ' ')`, never lengthening the text; what it keeps and how it replaces each run is stated by the rows below |
| JsText.NonSpace | database.js:181 | the non-whitespace characters of a text, in order: what neither collapsing nor trimming may change |
| JsText.CollapseSpacesKeepsNonSpace | database.js:181 | collapsing keeps every non-whitespace character, in order |
| JsText.CollapseSpacesOfRun | database.js:181 | a whitespace run at the start of a text becomes one plain space |
| JsText.CollapseSpacesRun | database.js:181 | a maximal whitespace run inside a text becomes one plain space and the text on either side is collapsed on its own |
| JsText.NonSpaceTrim | database.js:158 | trimming keeps every non-whitespace character, in order |
| JsText.CollapseSpacesCollapsed | database.js:181 | after `replace(/\s+/g, ' ')` whitespace is only single plain spaces |
| JsText.CollapsedFixpoint | database.js:181 | collapsing an already collapsed string changes nothing |
| JsText.IntToString | public/script.js:20-22 | `String(n)` for integers: a minus sign for negatives, then the decimal digits; stated by `ParseIntToString` |
| JsText.ParseIntToString | public/script.js:22 | the decimal text of an integer reads back as that integer |
| JsText.LexLess | public/script.js:659 | the order of the default `sort()`: the first differing character decides, and a proper prefix comes first; total and transitive by the two rows below |
| JsText.LexLessTotal | public/script.js:659 | the string order compares any two distinct strings |
| JsText.LexLessTransitive | public/script.js:659 | the string order is transitive |

## Left out

- `server.js`: Express routing, body parsing and the Telegram bot are I/O and are not modelled.
- SQLite plumbing: `init` (the table definitions), the `run`/`get`/`all` wrappers and the promise chains are replaced by the class's sequences.
- `getUserByUsername`, `getUserById`, `listUsers` ordering, `listReports`' join with `username`, and `addFeedback`/`listFeedback` are not modelled. Only the number of users matters to `globalSummary`.
- `uuidv4` is a counter. `Date.now()` is a parameter (`now`, `createdAt`).
- `summaryForUser`'s `last30` day buckets are left out: they need `Date` and `toISOString`. So are `DApercent`, `NETpercent` and `usefulIndex`, which use floating point and `Math.round`.
- `Ledger.TaskDist`: the histogram is a map, so the key order of the JavaScript object is not modelled. That order is the order in which each task type first occurs, and it is the key order of the returned JSON. Nothing in the core depends on it.
- `Ledger.Average`: `avg_length` is an exact real quotient, not a rounded double.
- `Analytics.RepeatRatio`: `matches / recent.length` is an exact real (1/3, say), not the rounded double that the `REAL` column stores.
- `UserStats.RoleNorm`: the beginner's norm status, `(happn / 7).toFixed(1) >= 5`, is left out. It compares a rounded decimal string and depends on the selected period, so the model only says which norm line is shown.
- Concurrency: every call is modelled as one atomic step, and the real calls interleave.
  - Two overlapping `addReport` calls can both read the history before either inserts.
  - Two overlapping `ensureUserByTelegram` calls for the same new Telegram id can both find no user and both insert (database.js:77-82). The schema has no UNIQUE constraint on `telegram_id` (database.js:15), so this leaves two rows with one Telegram id. If both calls pass the same non-null username, the second insert fails on `username UNIQUE` instead.
  - `Ledger.UsersOk`: its conjunct that no two users share a Telegram id is an assumption of the model, which follows from one-step calls. It is not a guarantee of the schema.
- The DOM, Chart.js, `fetch`, timers and the HTML markup around each card are not modelled. A card holds the values the markup inserts: the escaped name, the role, the escaped Instagram name, counts, badge rank and norm.
- The role is inserted into the markup unescaped. `CardEscaping` states this, and `EscapeHasNoMarkup` covers only the name and the Instagram name. The markup built around a role containing `<` is not modelled.
- The approve/reject, growth, top-performer, notes and worklog endpoints the dashboard calls are not implemented in the server files, so only their client-side merge is modelled.
- `toLowerCase` maps only the Basic Latin capitals and the Cyrillic capitals U+0400–U+042F; every other character is left unchanged. The rest of the Cyrillic block (U+0400–U+04FF, such as Ѣ or Ґ) and JavaScript's full Unicode case map are not modelled.
- `String.length` counts UTF-16 code units. The model counts characters, which agree below U+10000.
- `LexLess` compares characters as code points. `Array.prototype.sort()` compares UTF-16 code units. The two orders differ only for strings holding characters above U+FFFF.
- `escapeHtml` receives integers only, among numbers; non-integer numbers and their `String` form are not modelled.
- `ORDER BY created_at DESC` with equal timestamps is assumed to return rows in insertion order.
- User ids are modelled as natural numbers that stand for UUID strings. They are compared only for equality, so `Object.entries` order is insertion order.
