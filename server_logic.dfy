/**
 * The server's quiz logic as functions over its two tables, for the single
 * fixed user (user_id 1): the word catalogue and the progress records.
 * Every SQL query of the handlers becomes a set comprehension over the maps.
 */
module ServerLogic {
  import opened Wrappers
  import opened JsString
  import opened IdList

  /** A row of `words`. */
  datatype Word = Word(english: string, chinese: string, exampleEn: Option<string>,
                       exampleCn: Option<string>, weekTag: Option<string>)

  /** A row of `user_progress` for user 1 (the timestamp is not modelled). */
  datatype Progress = Progress(streak: nat, mastered: bool)

  type Words = map<int, Word>
  type ProgressTable = map<int, Progress>

  /** Consecutive correct answers needed for mastery. */
  const MasteryThreshold: nat := 3

  function MasteryFrom(streak: nat): bool {
    streak >= MasteryThreshold
  }

  /** A query-string value is truthy when present and non-empty. */
  predicate Truthy(s: Option<string>) {
    s.Some? && s.value != ""
  }

  predicate UniqueEnglish(words: Words) {
    forall a, b :: a in words && b in words && words[a].english == words[b].english ==> a == b
  }

  /** What the database guarantees and every handler preserves: progress rows
      reference existing words (the foreign key), mastery is derived from the
      streak, and english_word is unique. */
  predicate Consistent(words: Words, progress: ProgressTable) {
    && progress.Keys <= words.Keys
    && (forall id :: id in progress ==> progress[id].mastered == MasteryFrom(progress[id].streak))
    && UniqueEnglish(words)
  }

  // ---------------------------------------------------------------------------
  // GET /api/quiz/next

  /** `up.progress_id IS NULL OR up.is_mastered = 0` of the LEFT JOIN. */
  predicate Unmastered(progress: ProgressTable, id: int) {
    id !in progress || !progress[id].mastered
  }

  /** Words with no progress record or an unmastered one. */
  function UnmasteredPool(words: Words, progress: ProgressTable): set<int> {
    set id | id in words && Unmastered(progress, id)
  }

  /** The INNER JOIN of the review query: words with a mastered record. */
  function ReviewPool(words: Words, progress: ProgressTable): set<int> {
    set id | id in words && id in progress && progress[id].mastered
  }

  /** Listed words that are unmastered (`w.word_id IN (?)`). */
  function SessionPool(words: Words, progress: ProgressTable, ids: seq<int>): set<int> {
    set id | id in words && id in ids && Unmastered(progress, id)
  }

  /** `req.query.mode || 'new'`. */
  function ModeOf(modeParam: Option<string>): (mode: string)
    ensures mode != ""
  {
    if Truthy(modeParam) then modeParam.value else "new"
  }

  /** The set the handler's final `ORDER BY RAND() LIMIT 1` query draws from. */
  function EligiblePool(words: Words, progress: ProgressTable,
                        modeParam: Option<string>, idsParam: Option<string>): (pool: set<int>)
    ensures pool <= words.Keys
  {
    var mode := ModeOf(modeParam);
    if mode == "session" && Truthy(idsParam) then
      var ids := ParseIdList(idsParam.value);
      if |ids| > 0 then
        var inSession := SessionPool(words, progress, ids);
        if inSession != {} then inSession else UnmasteredPool(words, progress)
      else UnmasteredPool(words, progress)
    else if mode == "review" then ReviewPool(words, progress)
    else UnmasteredPool(words, progress)
  }

  /** Review draws only mastered words; a word without a record is never reviewed. */
  lemma ReviewOnlyMastered(words: Words, progress: ProgressTable,
                           modeParam: Option<string>, idsParam: Option<string>, id: int)
    requires ModeOf(modeParam) == "review"
    requires id in EligiblePool(words, progress, modeParam, idsParam)
    ensures id in words && id in progress && progress[id].mastered
  {
  }

  /** Every other mode (new, session, an unknown mode) draws only unmastered words. */
  lemma OtherModesUnmastered(words: Words, progress: ProgressTable,
                             modeParam: Option<string>, idsParam: Option<string>)
    requires ModeOf(modeParam) != "review"
    ensures EligiblePool(words, progress, modeParam, idsParam) <= UnmasteredPool(words, progress)
  {
  }

  /** The handler answers 404 exactly when its mode's global pool is empty:
      a session never runs dry while some word anywhere is unmastered. */
  lemma NotFoundExactly(words: Words, progress: ProgressTable,
                        modeParam: Option<string>, idsParam: Option<string>)
    ensures EligiblePool(words, progress, modeParam, idsParam) == {}
        <==> if ModeOf(modeParam) == "review" then ReviewPool(words, progress) == {}
             else UnmasteredPool(words, progress) == {}
  {
    if ModeOf(modeParam) == "session" && Truthy(idsParam) {
      var ids := ParseIdList(idsParam.value);
      assert SessionPool(words, progress, ids) <= UnmasteredPool(words, progress);
    }
  }

  /** Session mode with a list that parses to some id: the listed
      unmastered words, or the global unmastered pool when there are none. */
  lemma SessionPoolChoice(words: Words, progress: ProgressTable, idsParam: string)
    requires idsParam != "" && |ParseIdList(idsParam)| > 0
    ensures var listed := SessionPool(words, progress, ParseIdList(idsParam));
      EligiblePool(words, progress, Some("session"), Some(idsParam))
        == if listed != {} then listed else UnmasteredPool(words, progress)
  {
  }

  /** While a listed word is unmastered, session mode draws from the listed
      unmastered words only. */
  lemma SessionPrefersListed(words: Words, progress: ProgressTable, idsParam: string, w: int)
    requires idsParam != ""
    requires w in words && w in ParseIdList(idsParam) && Unmastered(progress, w)
    ensures EligiblePool(words, progress, Some("session"), Some(idsParam))
         == SessionPool(words, progress, ParseIdList(idsParam))
  {
    assert w in SessionPool(words, progress, ParseIdList(idsParam));
  }

  /** Once every listed word is mastered (or gone), session mode falls back to
      the global unmastered pool, which then contains no listed id: the
      mastered ones are excluded by their records, not by the list. */
  lemma SessionFallback(words: Words, progress: ProgressTable, idsParam: string)
    requires idsParam != ""
    requires forall id :: id in ParseIdList(idsParam) && id in words ==> !Unmastered(progress, id)
    ensures EligiblePool(words, progress, Some("session"), Some(idsParam)) == UnmasteredPool(words, progress)
    ensures forall id :: id in EligiblePool(words, progress, Some("session"), Some(idsParam))
                         ==> id !in ParseIdList(idsParam)
  {
    assert SessionPool(words, progress, ParseIdList(idsParam)) == {};
  }

  // ---------------------------------------------------------------------------
  // POST /api/quiz/submit

  /** `user_attempt.trim().toLowerCase() === correctSpelling.toLowerCase()`. */
  predicate IsCorrect(attempt: string, stored: string) {
    ToLower(Trim(attempt)) == ToLower(stored)
  }

  lemma {:induction false} TrimStartLower(s: string)
    ensures TrimStart(ToLower(s)) == ToLower(TrimStart(s))
  {
    if s != [] {
      ToLowerCharFacts(s[0]);
      if IsWhitespace(s[0]) {
        assert ToLower(s)[1..] == ToLower(s[1..]);
        TrimStartLower(s[1..]);
      }
    }
  }

  lemma {:induction false} TrimEndLower(s: string)
    ensures TrimEnd(ToLower(s)) == ToLower(TrimEnd(s))
  {
    if s != [] {
      ToLowerCharFacts(s[|s| - 1]);
      if IsWhitespace(s[|s| - 1]) {
        assert ToLower(s)[..|s| - 1] == ToLower(s[..|s| - 1]);
        TrimEndLower(s[..|s| - 1]);
      }
    }
  }

  lemma ToLowerIdempotent(s: string)
    ensures ToLower(ToLower(s)) == ToLower(s)
  {
    forall i | 0 <= i < |s| ensures ToLower(ToLower(s))[i] == ToLower(s)[i] {
      ToLowerCharFacts(s[i]);
    }
  }

  /** Trimming is idempotent. */
  lemma TrimIdempotent(s: string)
    ensures Trim(Trim(s)) == Trim(s)
  {
    var t := Trim(s);
    if t != [] {
      assert t[0] == TrimStart(s)[0];
      TrimUnchanged(t);
    }
  }

  /** Grading ignores the case of both spellings and whitespace around the
      attempt. */
  lemma GradingInsensitive(attempt: string, stored: string)
    ensures IsCorrect(attempt, stored) == IsCorrect(ToLower(attempt), stored)
    ensures IsCorrect(attempt, stored) == IsCorrect(attempt, ToLower(stored))
    ensures IsCorrect(attempt, stored) == IsCorrect(Trim(attempt), stored)
  {
    TrimStartLower(attempt);
    TrimEndLower(TrimStart(attempt));
    ToLowerIdempotent(Trim(attempt));
    ToLowerIdempotent(stored);
    TrimIdempotent(attempt);
  }

  /** Only the attempt is trimmed: a stored spelling with a leading space is
      never matched by its trimmed form. */
  lemma StoredSpellingNotTrimmed()
    ensures !IsCorrect("cat", " cat")
  {
    assert |ToLower(Trim("cat"))| <= 3;
  }

  /** The record's streak before grading: 0 when there is no record. */
  function PrevStreak(prev: Option<Progress>): nat {
    if prev.Some? then prev.value.streak else 0
  }

  /** The record a grading writes. */
  function NextProgress(prev: Option<Progress>, correct: bool): (p: Progress)
    ensures p.mastered == MasteryFrom(p.streak)
  {
    if correct then
      var s := PrevStreak(prev) + 1;
      Progress(s, MasteryFrom(s))
    else Progress(0, false)
  }

  function Lookup(progress: ProgressTable, id: int): Option<Progress> {
    if id in progress then Some(progress[id]) else None
  }

  datatype SubmitResponse =
    | SubmitBadRequest                                            // 400
    | SubmitNotFound                                              // 404
    | Graded(correct: bool, correctSpelling: Option<string>)      // 200

  /** `!word_id`: absent, null or 0. */
  predicate FalsyId(wordId: Option<int>) {
    wordId.None? || wordId.value == 0
  }

  /** What POST /api/quiz/submit answers and the progress table it leaves. */
  function SubmitOutcome(words: Words, progress: ProgressTable,
                         wordId: Option<int>, attempt: Option<string>): (r: (SubmitResponse, ProgressTable))
    ensures !r.0.Graded? ==> r.1 == progress
    ensures r.0.Graded? ==> && !FalsyId(wordId) && attempt.Some? && wordId.value in words
                            && wordId.value in r.1
  {
    if FalsyId(wordId) || attempt.None? then (SubmitBadRequest, progress)
    else if wordId.value !in words then (SubmitNotFound, progress)
    else
      var id := wordId.value;
      var stored := words[id].english;
      var correct := IsCorrect(attempt.value, stored);
      (Graded(correct, if correct then None else Some(stored)),
       progress[id := NextProgress(Lookup(progress, id), correct)])
  }

  /** The error answers, and that they write nothing. */
  lemma SubmitErrors(words: Words, progress: ProgressTable, wordId: Option<int>, attempt: Option<string>)
    ensures var (r, p) := SubmitOutcome(words, progress, wordId, attempt);
      && (r == SubmitBadRequest <==> FalsyId(wordId) || attempt.None?)
      && (r == SubmitNotFound <==> !FalsyId(wordId) && attempt.Some? && wordId.value !in words)
      && (!r.Graded? ==> p == progress)
  {
  }

  /** A graded answer is correct exactly when the trimmed, lower-cased attempt
      equals the lower-cased stored spelling; the spelling is echoed only on a
      wrong answer; only the answered word's record changes. */
  lemma SubmitGraded(words: Words, progress: ProgressTable, id: int, attempt: string)
    requires id != 0 && id in words
    ensures var (r, p) := SubmitOutcome(words, progress, Some(id), Some(attempt));
      && r.Graded?
      && (r.correct <==> ToLower(Trim(attempt)) == ToLower(words[id].english))
      && (r.correctSpelling.Some? <==> !r.correct)
      && (!r.correct ==> r.correctSpelling == Some(words[id].english))
  {
  }

  /** A graded answer writes the answered word's record and no other. */
  lemma SubmitWritesOne(words: Words, progress: ProgressTable, id: int, attempt: string)
    requires id != 0 && id in words
    ensures var p := SubmitOutcome(words, progress, Some(id), Some(attempt)).1;
      && p.Keys == progress.Keys + {id}
      && (forall k :: k in progress && k != id ==> p[k] == progress[k])
  {
    var rec := NextProgress(Lookup(progress, id), IsCorrect(attempt, words[id].english));
    var p := SubmitOutcome(words, progress, Some(id), Some(attempt)).1;
    assert p == progress[id := rec];
  }

  /** A correct answer adds one to the streak (a missing record counting as
      0); a wrong one sets the streak to 0; mastery is streak >= 3 either way. */
  lemma SubmitStreak(words: Words, progress: ProgressTable, id: int, attempt: string)
    requires id != 0 && id in words
    ensures var (r, p) := SubmitOutcome(words, progress, Some(id), Some(attempt));
      var old_streak := if id in progress then progress[id].streak else 0;
      && (r.correct ==> p[id].streak == old_streak + 1)
      && (!r.correct ==> p[id] == Progress(0, false))
      && (p[id].mastered <==> p[id].streak >= 3)
  {
  }

  /** Submitting keeps the tables consistent. */
  lemma SubmitConsistent(words: Words, progress: ProgressTable, wordId: Option<int>, attempt: Option<string>)
    requires Consistent(words, progress)
    ensures Consistent(words, SubmitOutcome(words, progress, wordId, attempt).1)
  {
    if !FalsyId(wordId) && attempt.Some? && wordId.value in words {
      var id := wordId.value;
      var rec := NextProgress(Lookup(progress, id), IsCorrect(attempt.value, words[id].english));
      assert SubmitOutcome(words, progress, wordId, attempt).1 == progress[id := rec];
      UpsertConsistent(words, progress, id, rec);
    }
  }

  /** Writing a record whose mastery follows its streak, for a known word. */
  lemma UpsertConsistent(words: Words, progress: ProgressTable, id: int, rec: Progress)
    requires Consistent(words, progress) && id in words && rec.mastered == MasteryFrom(rec.streak)
    ensures Consistent(words, progress[id := rec])
  {
  }

  /** Three correct answers in a row on a new word master it at the third;
      any wrong answer then unmasters it with streak 0. */
  lemma {:induction false} ThreeCorrectMaster(words: Words, progress: ProgressTable, id: int,
                                              attempt: string, wrong: string)
    requires id != 0 && id in words && id !in progress
    requires IsCorrect(attempt, words[id].english) && !IsCorrect(wrong, words[id].english)
    ensures var (_, p1) := SubmitOutcome(words, progress, Some(id), Some(attempt));
      var (_, p2) := SubmitOutcome(words, p1, Some(id), Some(attempt));
      var (_, p3) := SubmitOutcome(words, p2, Some(id), Some(attempt));
      var (_, p4) := SubmitOutcome(words, p3, Some(id), Some(wrong));
      && p1[id] == Progress(1, false)
      && p2[id] == Progress(2, false)
      && p3[id] == Progress(3, true)
      && p4[id] == Progress(0, false)
  {
    var (_, p1) := SubmitOutcome(words, progress, Some(id), Some(attempt));
    assert p1[id] == Progress(1, false);
    var (_, p2) := SubmitOutcome(words, p1, Some(id), Some(attempt));
    assert Lookup(p1, id) == Some(Progress(1, false));
    assert p2[id] == Progress(2, false);
    var (_, p3) := SubmitOutcome(words, p2, Some(id), Some(attempt));
    assert Lookup(p2, id) == Some(Progress(2, false));
    assert p3[id] == Progress(3, true);
  }

  /** "CAT" is a correct attempt for "cat". */
  lemma CatIsCorrect()
    ensures IsCorrect("CAT", "cat")
  {
    assert TrimStart("CAT") == "CAT";
    assert TrimEnd("CAT") == "CAT";
    assert ToLower("CAT") == "cat";
    assert ToLower("cat") == "cat";
  }

  // ---------------------------------------------------------------------------
  // GET /api/progress/stats

  datatype StatsResponse = StatsResponse(total: nat, mastered: nat,
                                         sessionTotal: Option<nat>, sessionMastered: Option<nat>)

  function MasteredIds(progress: ProgressTable): set<int> {
    set id | id in progress && progress[id].mastered
  }

  /** The ids of the `ids` parameter, empty when it is absent or "". */
  function StatsIds(idsParam: Option<string>): seq<int> {
    if Truthy(idsParam) then ParseIdList(idsParam.value) else []
  }

  /** The four counts of GET /api/progress/stats. */
  function ProgressStats(words: Words, progress: ProgressTable, idsParam: Option<string>): (r: StatsResponse)
    ensures r.sessionTotal.None? <==> r.sessionMastered.None?
  {
    var ids := StatsIds(idsParam);
    StatsResponse(
      |words|,
      |MasteredIds(progress)|,
      if |ids| > 0 then Some(|ids|) else None,
      if |ids| > 0 then Some(|set id | id in MasteredIds(progress) && id in ids|) else None)
  }

  lemma SubsetCard<T>(a: set<T>, b: set<T>)
    requires a <= b
    ensures |a| <= |b|
  {
    assert b == a + (b - a);
  }

  lemma {:induction false} DistinctAtMostLength(ids: seq<int>)
    ensures |set x | x in ids| <= |ids|
  {
    if ids != [] {
      var rest := ids[1..];
      DistinctAtMostLength(rest);
      assert (set x | x in ids) == (set x | x in rest) + {ids[0]};
    }
  }

  /** The mastered count never exceeds the catalogue size. */
  lemma MasteredAtMostTotal(words: Words, progress: ProgressTable, idsParam: Option<string>)
    requires Consistent(words, progress)
    ensures ProgressStats(words, progress, idsParam).mastered <= ProgressStats(words, progress, idsParam).total
  {
    SubsetCard(MasteredIds(progress), words.Keys);
  }

  /** The session counts are both null exactly when the parameter gives no id;
      otherwise session_total is the length of the parsed list (repeated and
      stale ids included) and session_mastered, which counts distinct listed
      ids with a mastered record, is at most session_total. */
  lemma SessionStats(words: Words, progress: ProgressTable, idsParam: Option<string>)
    ensures var r := ProgressStats(words, progress, idsParam);
      && (r.sessionTotal.None? <==> StatsIds(idsParam) == [])
      && (r.sessionMastered.None? <==> StatsIds(idsParam) == [])
      && (r.sessionTotal.Some? ==> r.sessionTotal.value == |StatsIds(idsParam)|)
      && (r.sessionTotal.Some? ==> r.sessionMastered.value <= r.sessionTotal.value)
  {
    var ids := StatsIds(idsParam);
    SubsetCard(set id | id in MasteredIds(progress) && id in ids, set x | x in ids);
    DistinctAtMostLength(ids);
  }

  /** A stale id listed twice (as in "5,5" with no word 5): session_total
      counts 2 although no such word exists, and session_mastered counts 0. */
  lemma StaleRepeatedIdCounted(words: Words, progress: ProgressTable, param: string, x: int)
    requires param != "" && ParseIdList(param) == [x, x]
    requires x !in words && Consistent(words, progress)
    ensures ProgressStats(words, progress, Some(param)).sessionTotal == Some(2)
    ensures ProgressStats(words, progress, Some(param)).sessionMastered == Some(0)
  {
    assert (set id | id in MasteredIds(progress) && id in [x, x]) == {};
  }

  // ---------------------------------------------------------------------------
  // GET /api/words

  /** A listed word with its COALESCEd mastery and its `is_selected` mark. */
  datatype WordRow = WordRow(word: Word, isMastered: bool, isSelected: bool)

  /** `WHERE w.week_tag = ?` when `req.query.tag` is truthy, else every word. */
  predicate TagMatches(w: Word, tag: Option<string>) {
    !Truthy(tag) || w.weekTag == tag
  }

  /** The listing of GET /api/words, keyed by word id (its order by timestamp
      is not modelled). */
  function ListWords(words: Words, progress: ProgressTable, selection: seq<int>, tag: Option<string>)
    : (rows: map<int, WordRow>)
    ensures rows.Keys <= words.Keys
    ensures forall id :: id in rows ==> rows[id].word == words[id]
  {
    map id | id in words && TagMatches(words[id], tag) ::
      WordRow(words[id], id in progress && progress[id].mastered, id in selection)
  }

  /** The listing's marks agree with the quiz pools: with no tag, an unmarked
      word is exactly one the new mode can draw and a marked one exactly one
      review can draw. */
  lemma ListingAgreesWithPools(words: Words, progress: ProgressTable, selection: seq<int>, id: int)
    ensures var rows := ListWords(words, progress, selection, None);
      && (id in rows <==> id in words)
      && (id in rows ==> (!rows[id].isMastered <==> id in UnmasteredPool(words, progress)))
      && (id in rows ==> (rows[id].isMastered <==> id in ReviewPool(words, progress)))
      && (id in rows ==> (rows[id].isSelected <==> id in selection))
  {
  }

  /** A truthy tag lists exactly the words carrying that tag. */
  lemma ListingByTag(words: Words, progress: ProgressTable, selection: seq<int>, tag: string, id: int)
    requires tag != ""
    ensures id in ListWords(words, progress, selection, Some(tag)) <==> id in words && words[id].weekTag == Some(tag)
  {
  }

  // ---------------------------------------------------------------------------
  // PUT /api/progress/reset/:word_id

  datatype ResetResponse = ResetDone | ResetBadRequest | ResetNotFound

  const Unlearned := Progress(0, false)

  /** What the reset handler answers and the table it leaves: an existing
      record is updated, a missing one inserted, and the insert is refused by
      the foreign key when the word does not exist. */
  function ResetOutcome(words: Words, progress: ProgressTable, param: string): (r: (ResetResponse, ProgressTable))
    ensures r.0 != ResetDone ==> r.1 == progress
    ensures r.0 == ResetDone ==> ParseInt(param).Some? && r.1.Keys == progress.Keys + {ParseInt(param).value}
    ensures r.0 == ResetDone ==> r.1[ParseInt(param).value] == Unlearned
  {
    match ParseInt(param)
    case None => (ResetBadRequest, progress)
    case Some(id) =>
      if id in progress then (ResetDone, progress[id := Unlearned])
      else if id in words then (ResetDone, progress[id := Unlearned])
      else (ResetNotFound, progress)
  }

  /** Reset answers 400 for a non-numeric id and, on consistent tables, 404
      exactly for an unknown word; otherwise the record is streak 0, unmastered,
      and no other record changes. */
  lemma ResetEffect(words: Words, progress: ProgressTable, param: string)
    requires Consistent(words, progress)
    ensures var (r, p) := ResetOutcome(words, progress, param);
      && (r == ResetBadRequest <==> ParseInt(param).None?)
      && (r == ResetNotFound <==> ParseInt(param).Some? && ParseInt(param).value !in words)
      && (r != ResetDone ==> p == progress)
      && (r == ResetDone ==> var id := ParseInt(param).value;
            p[id] == Progress(0, false) && p.Keys == progress.Keys + {id}
            && forall k :: k in progress && k != id ==> p[k] == progress[k])
      && Consistent(words, p)
  {
    match ParseInt(param)
    case None =>
    case Some(id) =>
      if id in words {
        assert ResetOutcome(words, progress, param) == (ResetDone, progress[id := Unlearned]);
        assert Unlearned.mastered == MasteryFrom(Unlearned.streak);
      } else {
        assert id !in progress;
        assert ResetOutcome(words, progress, param) == (ResetNotFound, progress);
      }
  }

  /** Resetting twice leaves the same table as resetting once. */
  lemma ResetIdempotent(words: Words, progress: ProgressTable, param: string)
    ensures var (_, p1) := ResetOutcome(words, progress, param);
      ResetOutcome(words, p1, param).1 == p1
  {
    var (_, p1) := ResetOutcome(words, progress, param);
    if ParseInt(param).Some? {
      var id := ParseInt(param).value;
      if id in p1 {
        assert p1[id := Unlearned] == p1;
      }
    }
  }

  // ---------------------------------------------------------------------------
  // POST /api/words/import (over already-parsed CSV rows)

  /** A CSV row as parsed with a header line; a missing column is None. */
  datatype CsvRow = CsvRow(english: Option<string>, chinese: Option<string>,
                           exampleEn: Option<string>, exampleCn: Option<string>)

  /** `v ? v.trim() : null`. */
  function Cleaned(v: Option<string>): Option<string> {
    if Truthy(v) then Some(Trim(v.value)) else None
  }

  /** `engWord && cnDef`: both trimmed cells non-empty. */
  predicate RowUsable(row: CsvRow) {
    Truthy(Cleaned(row.english)) && Truthy(Cleaned(row.chinese))
  }

  predicate EnglishTaken(words: Words, e: string) {
    exists id :: id in words && words[id].english == e
  }

  /** The import loop's state: the catalogue, the next auto-increment id, and
      the two counters. */
  datatype ImportState = ImportState(words: Words, nextId: int, imported: nat, skipped: nat)

  /** One iteration: an unusable row is skipped, a usable one is inserted with
      INSERT IGNORE, which skips it when its english_word already exists. */
  function ImportStep(st: ImportState, row: CsvRow): ImportState
  {
    if !RowUsable(row) then st.(skipped := st.skipped + 1)
    else
      var e := Cleaned(row.english).value;
      if EnglishTaken(st.words, e) then st.(skipped := st.skipped + 1)
      else
        var w := Word(e, Cleaned(row.chinese).value, Cleaned(row.exampleEn), Cleaned(row.exampleCn), None);
        ImportState(st.words[st.nextId := w], st.nextId + 1, st.imported + 1, st.skipped)
  }

  /** The loop over the rows, in order. */
  function ImportAll(st: ImportState, rows: seq<CsvRow>): ImportState
  {
    if rows == [] then st else ImportStep(ImportAll(st, rows[..|rows| - 1]), rows[|rows| - 1])
  }

  /** Every id below the auto-increment counter. */
  predicate FreshIds(words: Words, nextId: int) {
    forall id :: id in words ==> id < nextId
  }

  /** A word as the import inserts it: trimmed, non-empty english and chinese. */
  predicate CleanWord(w: Word) {
    w.english != "" && w.chinese != "" && w.english == Trim(w.english) && w.chinese == Trim(w.chinese)
  }

  /** Old words stay, unchanged. */
  predicate Extends(old_words: Words, words: Words) {
    old_words.Keys <= words.Keys && forall id :: id in old_words ==> words[id] == old_words[id]
  }

  /** What the loop keeps: auto-increment ids stay fresh and english_word
      unique; old words are untouched; every row is counted once, as imported
      or skipped; the catalogue grows by the imported count; every inserted
      word is clean. */
  predicate ImportInvariant(st0: ImportState, st: ImportState, n: nat) {
    && FreshIds(st.words, st.nextId)
    && UniqueEnglish(st.words)
    && Extends(st0.words, st.words)
    && st.imported + st.skipped == st0.imported + st0.skipped + n
    && st.imported >= st0.imported
    && |st.words| == |st0.words| + st.imported - st0.imported
    && (forall id :: id in st.words && id !in st0.words ==> CleanWord(st.words[id]))
  }

  lemma TrimmedNonEmpty(v: Option<string>)
    requires Truthy(Cleaned(v))
    ensures Trim(Cleaned(v).value) == Cleaned(v).value
  {
    TrimIdempotent(v.value);
  }

  /** Inserting a fresh word under a fresh id keeps english_word unique. */
  lemma InsertKeepsUnique(words: Words, id: int, w: Word)
    requires UniqueEnglish(words) && id !in words && !EnglishTaken(words, w.english)
    ensures UniqueEnglish(words[id := w])
  {
  }

  /** Inserting a clean word whose english is new, under the next id. */
  lemma InsertCleanKeeps(st0: ImportState, st: ImportState, n: nat, w: Word)
    requires ImportInvariant(st0, st, n)
    requires CleanWord(w) && !EnglishTaken(st.words, w.english)
    ensures ImportInvariant(st0, ImportState(st.words[st.nextId := w], st.nextId + 1, st.imported + 1, st.skipped), n + 1)
  {
    assert st.nextId !in st.words;
    var words' := st.words[st.nextId := w];
    assert FreshIds(words', st.nextId + 1);
    InsertKeepsUnique(st.words, st.nextId, w);
    assert Extends(st0.words, words');
    assert |words'| == |st.words| + 1;
    assert forall id :: id in words' && id !in st0.words ==> CleanWord(words'[id]);
  }

  lemma ImportInsertKeeps(st0: ImportState, st: ImportState, n: nat, row: CsvRow)
    requires ImportInvariant(st0, st, n)
    requires RowUsable(row) && !EnglishTaken(st.words, Cleaned(row.english).value)
    ensures ImportInvariant(st0, ImportStep(st, row), n + 1)
  {
    TrimmedNonEmpty(row.english);
    TrimmedNonEmpty(row.chinese);
    var w := Word(Cleaned(row.english).value, Cleaned(row.chinese).value,
                  Cleaned(row.exampleEn), Cleaned(row.exampleCn), None);
    assert CleanWord(w);
    InsertCleanKeeps(st0, st, n, w);
    assert ImportStep(st, row) == ImportState(st.words[st.nextId := w], st.nextId + 1, st.imported + 1, st.skipped);
  }

  lemma ImportStepKeeps(st0: ImportState, st: ImportState, n: nat, row: CsvRow)
    requires ImportInvariant(st0, st, n)
    ensures ImportInvariant(st0, ImportStep(st, row), n + 1)
  {
    if RowUsable(row) && !EnglishTaken(st.words, Cleaned(row.english).value) {
      ImportInsertKeeps(st0, st, n, row);
    }
  }

  /** Counting and growth for the whole loop, from any starting state. */
  lemma {:induction false} ImportAllKeeps(st0: ImportState, rows: seq<CsvRow>)
    requires forall id :: id in st0.words ==> id < st0.nextId
    requires UniqueEnglish(st0.words)
    ensures ImportInvariant(st0, ImportAll(st0, rows), |rows|)
  {
    if rows != [] {
      ImportAllKeeps(st0, rows[..|rows| - 1]);
      ImportStepKeeps(st0, ImportAll(st0, rows[..|rows| - 1]), |rows| - 1, rows[|rows| - 1]);
    }
  }

  /** A row with a blank english or chinese cell is never inserted. */
  lemma BlankRowSkipped(st: ImportState, row: CsvRow)
    requires !RowUsable(row)
    ensures ImportStep(st, row) == st.(skipped := st.skipped + 1)
  {
  }
}
