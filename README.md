# Mumutoday spelling trainer — a Dafny model

Mumutoday is a single-user vocabulary trainer. A learner spells English words
by clicking shuffled letter buttons. The server grades each attempt and keeps,
per word, a streak of consecutive correct answers; three in a row master the
word. The quiz draws words in one of three modes:

- `new`: unmastered words;
- `review`: mastered words;
- `session`: a hand-picked list of word ids, falling back to all unmastered
  words once the list is exhausted.

A management page lists the catalogue with one checkbox per word. It saves the
checked ids as the stored selection and opens a session on them.

The model covers three parts of the system:

- **Server** (`server.js`).
  - `server_logic.dfy` holds the handlers as functions over three tables:
    `words: map<int, Word>`, `progress: map<int, Progress>` for the fixed user 1,
    and `selection: seq<int>`. Each SQL query becomes a set comprehension.
  - `server_store.dfy` holds the class `Store`, whose methods change those
    tables the way the handlers do: submit, reset, `PUT`/`GET
    /api/session/current`, and the CSV import loop. `ORDER BY RAND() LIMIT 1`
    becomes a `:|` pick from the eligible set.
  - `jsstring.dfy` holds the JavaScript string primitives the handlers rely
    on: `trim`, `toLowerCase`, `split`/`join`, number rendering and
    `parseInt(s, 10)`.
  - `idlist.dfy` holds the comma-separated id list that both `ids` parameters
    share, and the normalisation of the `PUT` body.
- **`urlquery.dfy`**: how a receiver reads `key=value` pairs back out of a URL
  the pages build. It lets the model connect the URLs the client builds to
  what the server reads.
- **Quiz page** (`script.js`) and **management page** (`manage.js`).
  - `quiz_page.dfy`: mode resolution at start-up, the two request URLs, the
    mastery percentage, the answer-slot string, and the class `Page`. `Page`
    holds the page's globals: current word, attempt buffer, mode and ids
    string.
  - `manage_page.dfy`: `escapeHTML`, the checkbox counts and panel state, the
    saved selection, the session link, and the class `SelectionPanel`. Its
    checkboxes are an `array<bool>`.

A database invariant is assumed throughout: `ServerLogic.Consistent`.

- Every progress row names an existing word (the foreign key, with cascade
  delete).
- `is_mastered` equals `streak >= 3`.
- `english_word` is unique.

Every state-changing handler is proved to preserve this invariant.

## Model

| member | source | states |
|---|---|---|
| JsString.TrimStart | server.js:215 | the result is the suffix that starts at the first non-whitespace character; everything dropped is whitespace |
| JsString.TrimEnd | server.js:215 | the result is the prefix that ends at the last non-whitespace character; everything dropped is whitespace |
| JsString.TrimPadded | server.js:349 | trim removes exactly the whitespace added around a string whose ends are not whitespace |
| JsString.ToLower | server.js:349 | lower-casing keeps the length; no capital letter survives; every other character is kept in place, and whitespace stays whitespace |
| JsString.Split | server.js:215 | `split(',')` gives at least one piece, and no piece contains the separator |
| JsString.JoinSplit | server.js:215 | joining the pieces of a split gives the original string back |
| JsString.SplitJoin | script.js:58 | splitting a join of separator-free parts gives the parts back |
| JsString.NatToString | manage.js:181 | a rendered id is a non-empty run of decimal digits |
| JsString.ParseInt | server.js:803 | `parseInt(s, 10)` is NaN exactly when, after leading whitespace and one optional sign, no decimal digit follows |
| JsString.ParseIntToString | server.js:803 | `parseInt` reads back the decimal rendering of every integer, negative ones included |
| JsString.ParseIntSuffix | server.js:215 | `parseInt` keeps the leading integer and ignores whatever non-digit text follows it |
| JsString.ParseIntTrailing | server.js:215 | `parseInt("3x")` is 3 |
| JsString.ParseIntNaN | server.js:215 | `parseInt` of `""`, `"-"` and `"x3"` is NaN |
| JsString.ParseIntSigned | server.js:215 | `parseInt(" -7")` is -7: leading whitespace and a sign are accepted |
| IdList.ParseIdList | server.js:215 | specified by the lemmas below: `ParsePieces`, `ParseIdListAppend`, `ParseJoinIds`, `ParseIdListEmpty`, `ParseIdListSingle`, `ParseIdListRepeated`, `ParseIdListNonNumeric` and `ParseIdListSuffix` |
| IdList.ParsePieces | server.js:215 | filtering out NaN never adds ids: there are at most as many ids as pieces |
| IdList.ParseIdListAppend | server.js:215 | the list of `s,t` is the list of `s` followed by the list of `t`; order and duplicates are kept |
| IdList.ParseJoinIds | server.js:215 | the server parses back exactly the id list a client joined with commas; `[]` joins to `""` and parses back to `[]` |
| IdList.JoinIdsShape | script.js:58 | a joined id list contains only digits, `-` and `,`, and is empty only for no ids |
| IdList.ParseIdListEmpty | server.js:215 | `""` parses to no id |
| IdList.ParseIdListRepeated | server.js:215 | an id repeated in the list (as in `5,5`) is kept twice |
| IdList.ParseIdListSingle | server.js:215 | one rendered id parses to a list holding just that id |
| IdList.ParseIdListNonNumeric | server.js:215 | a piece that starts with neither a sign nor a digit (as `x`) is dropped |
| IdList.ParseIdListSuffix | server.js:215 | a piece like `7y` keeps its leading integer |
| IdList.IdStringsReadBack | server.js:215 | each id rendered by `String` holds no comma and, trimmed and read with `parseInt`, gives the id back |
| IdList.IdReadsBack | server.js:215 | one rendered id holds no comma and reads back as itself |
| IdList.ValidatedIds | server.js:731 | `Number`-then-filter-NaN keeps at most every element, and keeps every element when none is NaN |
| IdList.ValidatedIdsAppend | server.js:731 | `Number`-then-filter-NaN works element by element: the result for `a + b` is the result for `a` followed by the result for `b` |
| IdList.ValidatedIdsElement | server.js:731 | a number is kept, `null` becomes 0 (`Number(null)`), and a non-numeric value is dropped |
| IdList.ValidatedNumbers | server.js:731 | a body of plain numbers is stored exactly as sent |
| UrlQuery.QueryString | server.js:201 | the query string is a part of the URL, and is empty when there is no `?` |
| UrlQuery.PairValue | server.js:201 | a value found for `key` comes from a pair that is literally `key=value` |
| UrlQuery.QueryOf | script.js:28 | the query string of `path?q` is `q` when the path has no `?` |
| UrlQuery.OtherKey | script.js:29-30 | a pair with a different `=`-free key never answers for `key` |
| UrlQuery.OneParam | server.js:517 | in a one-parameter query, its key is found and every other key is absent |
| UrlQuery.TwoParams | script.js:28-30 | in a two-parameter query, each of the two keys is found with its own value |
| ServerLogic.ModeOf | server.js:199 | the mode is never empty: a missing or empty `mode` becomes `new` |
| ServerLogic.EligiblePool | server.js:214-296 | every mode draws only catalogue words; the set for each mode is stated by the lemmas below |
| ServerLogic.ReviewOnlyMastered | server.js:272-283 | review draws only catalogue words that have a mastered record |
| ServerLogic.OtherModesUnmastered | server.js:256-296 | `new`, any unknown mode, and `session` with or without valid ids draw only words with no record or an unmastered one |
| ServerLogic.NotFoundExactly | server.js:303-310 | the eligible set is empty exactly when the mode's global pool is empty, so a session gets 404 only when no word anywhere is unmastered |
| ServerLogic.SessionPoolChoice | server.js:214-255 | a session with a non-empty parsed list draws from the listed unmastered words, or from the global unmastered pool when there are none |
| ServerLogic.SessionPrefersListed | server.js:230-241 | while some listed word is unmastered, the session draws only from the listed unmastered words |
| ServerLogic.SessionFallback | server.js:242-255 | once every listed word is mastered, the session draws from the global unmastered pool, and that pool then holds no listed id |
| ServerLogic.ToLowerIdempotent | server.js:349 | lower-casing twice is lower-casing once |
| ServerLogic.GradingInsensitive | server.js:349 | `IsCorrect` ignores the case of both spellings and whitespace around the attempt |
| ServerLogic.StoredSpellingNotTrimmed | server.js:349 | only the attempt is trimmed: `cat` does not match a stored ` cat` |
| ServerLogic.CatIsCorrect | server.js:349 | `CAT` is a correct attempt for `cat` |
| ServerLogic.NextProgress | server.js:353-370 | the written record's mastery is always `streak >= 3` |
| ServerLogic.SubmitOutcome | server.js:324-395 | an answer that is not graded writes nothing; a graded one comes only with a truthy `word_id` of a catalogue word and an attempt, and leaves that word's record present |
| ServerLogic.SubmitErrors | server.js:330-345 | 400 exactly for a falsy `word_id` or a missing attempt; 404 exactly for an unknown word; neither writes any progress |
| ServerLogic.SubmitGraded | server.js:349-395 | correct ⇔ the trimmed, lower-cased attempt equals the lower-cased stored spelling; `correct_spelling` is sent exactly on a wrong answer, and it is the stored spelling |
| ServerLogic.SubmitWritesOne | server.js:374-385 | a graded answer writes the answered word's record, inserting it if missing, and leaves every other record as it was |
| ServerLogic.SubmitStreak | server.js:353-370 | a correct answer adds one to the streak, a missing record counting as 0; a wrong one gives streak 0, unmastered; mastered ⇔ streak ≥ 3 |
| ServerLogic.SubmitConsistent | server.js:374-385 | the upsert keeps the tables consistent |
| ServerLogic.ThreeCorrectMaster | server.js:353-370 | three correct answers on a new word give streaks 1, 2, 3, mastering the word at the third; a wrong answer then gives streak 0, unmastered |
| ServerLogic.ProgressStats | server.js:527-564 | the two session fields are null together; their values are stated by `SessionStats` |
| ServerLogic.MasteredAtMostTotal | server.js:527-535 | on consistent tables, `mastered` ≤ `total` |
| ServerLogic.SessionStats | server.js:538-557 | both session fields are null exactly when `ids` is absent or parses to no id; `session_total` is the parsed list's length; `session_mastered` ≤ `session_total` |
| ServerLogic.StaleRepeatedIdCounted | server.js:541-545 | a stale id listed twice counts 2 in `session_total` and 0 in `session_mastered` |
| ServerLogic.ListWords | server.js:154-182 | only catalogue words are listed, each with its stored fields |
| ServerLogic.ListingAgreesWithPools | server.js:154-182 | without a tag, every word is listed; a listed word is marked mastered exactly when review could draw it, unmastered exactly when `new` could, and `is_selected` exactly when its id is in the stored selection |
| ServerLogic.ListingByTag | server.js:167-170 | a non-empty tag lists exactly the words carrying that tag |
| ServerLogic.ResetOutcome | server.js:801-864 | only a 200 writes; it needs a numeric id, makes that id's record streak 0 and unmastered, and adds no other key |
| ServerLogic.ResetEffect | server.js:801-864 | 400 exactly for a non-numeric id; on consistent tables, 404 exactly for an unknown word; otherwise the record becomes streak 0, unmastered, inserted if missing, with no other record changed and the tables still consistent |
| ServerLogic.ResetIdempotent | server.js:815-846 | resetting twice leaves the same table as resetting once |
| ServerLogic.InsertKeepsUnique | server.js:666-670 | inserting a new spelling under a fresh id keeps `english_word` unique |
| ServerLogic.ImportAllKeeps | server.js:672-696 | across the import loop (`ImportAll`, one `ImportStep` per row, each cell read through `Cleaned`): every row is counted once, as imported or skipped; ids stay fresh, spellings unique, old words untouched; the catalogue grows by the imported count, and every inserted word has trimmed, non-empty english and chinese |
| ServerLogic.BlankRowSkipped | server.js:676-694 | a row whose trimmed english or chinese cell is empty is skipped, not inserted |
| ServerStore.PoolInCatalogue | server.js:287-296 | every mode draws only catalogue words |
| ServerStore.Store.SelectNext | server.js:198-310 | returns a word of the mode's eligible set, with its stored english and chinese, and 404 exactly when that set is empty |
| ServerStore.Store.Submit | server.js:324-395 | the response and the new progress table are those of `SubmitOutcome`, and the tables stay consistent |
| ServerStore.Store.Reset | server.js:801-864 | the response and the new table are those of `ResetOutcome`, and the tables stay consistent |
| ServerStore.Store.PutSelection | server.js:720-766 | 400 exactly when `selected_ids` is not an array, leaving the selection as it was; otherwise the whole list is replaced by its numeric elements |
| ServerStore.Store.GetSelection | server.js:769-798 | returns the stored list |
| ServerStore.Store.Import | server.js:626-706 | 400 without a file or with no data rows, changing neither the catalogue nor the id counter; otherwise the catalogue, id counter and counts are those of the row-by-row fold; `imported + skipped == processed`; the catalogue grows by `imported`; old words are kept; the tables stay consistent |
| QuizPage.ResolveMode | script.js:33-77 | session mode ⇔ a non-empty ids string; no other mode carries one |
| QuizPage.UrlModeFirst | script.js:33-44 | a URL naming a mode decides it, whatever was saved: `session` with a non-empty ids string gives a session on that string; `review` and `new` give that mode with no ids |
| QuizPage.SavedListResumed | script.js:45-77 | with no mode in the URL, a non-empty saved list starts a session whose ids string the server reads back as exactly that list; anything else, a failed request included, gives `new` |
| QuizPage.NextWordUrlParams | script.js:110-113 | `NextWordUrl`: the server reads the mode back from the next-word URL, and finds `ids` exactly when the mode is session with a non-empty ids string |
| QuizPage.StatsUrlParams | script.js:344-347 | `StatsUrl`: the stats URL carries `ids` under the same condition |
| QuizPage.SessionRequests | script.js:110-113 | in session mode, the next-word request draws from the list's unmastered words (falling back to all unmastered words), and the stats request counts that list |
| QuizPage.ResumedSessionRequests | script.js:55-58 | a session resumed from a saved list asks for words of that list and for that list's counts |
| QuizPage.Percentage | script.js:374-384 | the percentage is always within [0, 100]; it is 0 for a non-positive denominator, and the plain ratio when 0 ≤ numerator ≤ denominator |
| QuizPage.ServerFiguresInRange | script.js:359-372 | `Figures`: in every mode, counts from a consistent server give 0 ≤ numerator ≤ denominator, so the clamp never changes the ratio |
| QuizPage.Spaced | script.js:193 | one character and one space per slot |
| QuizPage.SpacedShape | script.js:193 | position 2i holds slot i and position 2i+1 a space |
| QuizPage.TrimSpaced | script.js:196 | trimming drops exactly the final space |
| QuizPage.AnswerTextShape | script.js:188-199 | `AnswerText`: the answer text has one slot per letter, in order, separated by single spaces, with none at either end; an empty word shows `""` |
| QuizPage.ClickedAttemptGrading | script.js:212 | the lower-cased clicked letters are graded correct exactly when they equal the lower-cased stored spelling |
| QuizPage.Page.constructor | script.js:19-23 | the globals' initial values |
| QuizPage.Page.InitializeGame | script.js:26-78 | the mode and ids string are those of `ResolveMode` |
| QuizPage.Page.UpdateAnswerDisplay | script.js:188-199 | the loop builds the text that `AnswerText` defines; `_ _ _ _ _` when there is no word |
| QuizPage.Page.FetchNextWord | script.js:87-155 | requests `NextWordUrl`; a received word becomes current with an empty attempt and 0 wrong attempts; 404 or a failure leaves no current word |
| QuizPage.Page.HandleLetterClick | script.js:203-226 | a no-op without a word or with a full attempt; otherwise appends the lower-cased letter and redraws; submits exactly when the attempt becomes full; the attempt never outgrows the word |
| QuizPage.Page.HandleClearAttempt | script.js:461-473 | a no-op without a word or with an empty attempt; otherwise empties the attempt and redraws |
| ManagePage.ReplaceAll | manage.js:28 | a global replace removes every occurrence when the replacement does not contain the character, and changes nothing when the character is absent |
| ManagePage.EscapeHtml | manage.js:25-33 | `''` for a falsy value; otherwise the one-pass escape of the value (`EscapeOnce`); the output never holds a raw `<`, `>`, `"` or `'` |
| ManagePage.ChainIsOnePass | manage.js:28-32 | `EscapeChain`: because `&` is replaced first, the chain equals escaping every character once, on its own |
| ManagePage.ChainChar | manage.js:28-32 | the chain maps each special character to its entity and leaves every other character unchanged |
| ManagePage.EscapeOnceNoRaw | manage.js:28-32 | the one-pass escape holds no raw special character |
| ManagePage.PlainUnchanged | manage.js:28-32 | text without any of the five characters is shown as is |
| ManagePage.UnescapeEscapeHtml | manage.js:25-33 | a browser reading the escaped text back gets exactly the stored value |
| ManagePage.CountChecked | manage.js:46-47 | the count is at most the number of boxes |
| ManagePage.CountCheckedExtremes | manage.js:66-71 | the count equals the total exactly when all boxes are checked, and is 0 exactly when none is |
| ManagePage.CheckedIds | manage.js:84-86 | one id per checked box, each a listed id |
| ManagePage.ButtonState | manage.js:53-72 | select-all is never both indeterminate and checked |
| ManagePage.PanelStateMeaning | manage.js:46-72 | start is enabled ⇔ some box is checked; select-all is checked ⇔ there are boxes and all are checked; indeterminate ⇔ some boxes are checked and some are not |
| ManagePage.SessionLinkStartsSession | manage.js:410-415 | `SessionLink`: the quiz page opened at the link starts a session whose ids the server reads as exactly the checked ids, whatever was saved |
| ManagePage.SavedBody | manage.js:86 | one element per checkbox value |
| ManagePage.SavedSelectionStored | manage.js:84-98 | `SelectionBody`: the server stores exactly the checked ids, in page order |
| ManagePage.NaNValueStoredAsZero | manage.js:86 | a non-numeric value is sent as null and stored as 0 |
| ManagePage.SelectionPanel.constructor | manage.js:177-183 | each box is checked as the server marked its row |
| ManagePage.SelectionPanel.UpdateSessionButtonState | manage.js:38-73 | the counting loop gives `CountChecked` of the boxes, and the button and select-all fields follow `ButtonState` |
| ManagePage.SelectionPanel.SelectAllChanged | manage.js:386-394 | every box takes the select-all value; the count is then the total or 0; the saved body is that of the checked boxes |
| ManagePage.SelectionPanel.StartSession | manage.js:398-420 | redirects to the session link of the checked ids, and only when one or more boxes are checked |

## Left out

- I/O plumbing is not modelled: Express routing, middleware, the connection pool, logging and the `finally` blocks. Nor is the browser side: the DOM, `fetch`, `setTimeout`, speech synthesis and styling. Request outcomes enter the model as parameters (`NextFetch`, `SavedList`).
- `ORDER BY RAND()` and the `Math.random` shuffle in `displayJumbledLetters` are not modelled. Only membership in the eligible set is stated.
- Listing order (`ORDER BY added_timestamp DESC`) is not modelled. The listing is a map from id to row.
- PapaParse and multer are not modelled. The import loop runs over already-parsed rows, and a missing file is `None`.
- Import: a database error on one insert, which the source counts as skipped, is not modelled. `INSERT IGNORE` is modelled as skipping an english spelling that is already present, compared exactly.
- MySQL's case-insensitive collation is not modelled. Spellings that differ only in case count as different words.
- The foreign key and the cascade delete of progress rows are assumed as the invariant `Consistent`, not derived. The `ER_NO_REFERENCED_ROW_2` error path of reset is modelled as 404 for an unknown word.
- ServerLogic.ResetOutcome: the `affectedRows == 0` corner, where an update changes nothing within the same second, is not modelled. The model answers 200 whenever the record exists.
- Concurrency between requests is out of scope: races between submits, and last-write-wins on the selection.
- Timestamps (`last_answered_timestamp`, `added_timestamp`) are not modelled.
- Word add, edit, delete and export are out of scope: their handlers, `loadWords`, and the client edit flow. These are single-statement CRUD. The add-word submit handler (manage.js:321-360) reads an undefined `weekTagInput`; the edit flow's `PUT` body carries only the english and chinese fields (manage.js:528-531).
- `submitAnswer`'s network flow (script.js:230-332), the hint and skip buttons, and the per-box `change` handler are not modelled. `submitAnswer` never updates `incorrectAttempts`; its only assignment is the reset when a word arrives (script.js:143), which `FetchNextWord` models. The change handler calls the two modelled functions (button state and save).
- Floating point is not modelled: the percentage is a `real` and `toFixed(1)` formatting is dropped. `parseInt` and `Number` work on unbounded integers, so precision loss for very long digit runs is not modelled.
- JsString.ToLower: only ASCII letters are lower-cased. Other scripts' case mappings are not modelled.
- String lengths count characters, not UTF-16 code units, so the answer slots of a word with characters outside the BMP are not modelled.
- Percent-decoding of query strings is not modelled. QuizPage.NextWordUrlParams and QuizPage.StatsUrlParams require that the ids string contain no `&`. A joined id list never does (`IdList.JoinIdsShape`).
- JSON encoding of `selected_word_ids` is not modelled. Stored elements are `Num`, `Null` or non-numeric values, read through `Number`.
- QuizPage.Page.HandleLetterClick requires a non-whitespace letter, because a whitespace letter's button gets no click handler.
- The 500 answers are not modelled, and no response datatype has a 500 case. Every handler's `catch` answers 500 when storage fails. On submit, a `user_attempt` that is not a string makes `.trim()` throw at server.js:349, after the 404 check and before any write, so that request also ends in 500 with nothing written.
- QuizPage.Page.HandleLetterClick does not model the disabling of each clicked button (script.js:218), which only a clear undoes; the model lets the same letter be clicked again. Because the whitespace button is hidden (script.js:177-179), a word containing whitespace such as `ice cream` can never fill its attempt, so the full-attempt test at script.js:221 never submits it.
