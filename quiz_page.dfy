/**
 * The quiz page (script.js): how it settles on a mode at start-up, the URLs
 * it asks the server with, the mastery percentage it shows, and its spelling
 * state (the current word, the letters clicked so far and the answer slots).
 */
module QuizPage {
  import opened Wrappers
  import opened JsString
  import opened IdList
  import opened UrlQuery
  import opened ServerLogic
  import opened ServerStore

  datatype Mode = New | Review | Session

  /** The `currentMode` string sent as the `mode` parameter. */
  function ModeName(m: Mode): string {
    match m
    case New => "new"
    case Review => "review"
    case Session => "session"
  }

  /** What GET /api/session/current gave the page: a body whose `selected_ids`
      is an array (or something else), or a failed request. */
  datatype SavedList = SavedResponse(selectedIds: Option<seq<int>>) | SavedFetchFailed

  // ---------------------------------------------------------------------------
  // initializeGame: mode resolution

  /** `mode` and `ids` from the page URL, the saved list only when the URL
      names no mode: the resulting (currentMode, sessionIdsString).  Session
      mode always carries a non-empty ids string, and no other mode carries one. */
  function ResolveMode(modeParam: Option<string>, idsParam: Option<string>, saved: SavedList)
    : (r: (Mode, Option<string>))
    ensures r.0 == Session <==> Truthy(r.1)
    ensures r.0 != Session ==> r.1 == None
  {
    if modeParam == Some("session") && Truthy(idsParam) then (Session, idsParam)
    else if modeParam == Some("review") then (Review, None)
    else if modeParam == Some("new") then (New, None)
    else match saved
      case SavedResponse(Some(ids)) =>
        if |ids| > 0 then JoinIdsShape(ids); (Session, Some(JoinIds(ids))) else (New, None)
      case _ => (New, None)
  }

  /** A URL that names a mode decides it, whatever was saved. */
  lemma UrlModeFirst(modeParam: Option<string>, idsParam: Option<string>, saved: SavedList, other: SavedList)
    requires modeParam == Some("review") || modeParam == Some("new")
             || (modeParam == Some("session") && Truthy(idsParam))
    ensures ResolveMode(modeParam, idsParam, saved) == ResolveMode(modeParam, idsParam, other)
    ensures modeParam == Some("session") && Truthy(idsParam) ==>
              ResolveMode(modeParam, idsParam, saved) == (Session, idsParam)
    ensures modeParam == Some("review") ==> ResolveMode(modeParam, idsParam, saved) == (Review, None)
    ensures modeParam == Some("new") ==> ResolveMode(modeParam, idsParam, saved) == (New, None)
  {
  }

  /** With no mode in the URL (or `mode=session` without ids) a non-empty
      saved list starts a session whose ids string the server reads back as
      exactly that list; anything else, a failed request included, is `new`. */
  lemma SavedListResumed(modeParam: Option<string>, idsParam: Option<string>, saved: SavedList)
    requires modeParam != Some("review") && modeParam != Some("new")
    requires !(modeParam == Some("session") && Truthy(idsParam))
    ensures var r := ResolveMode(modeParam, idsParam, saved);
      if saved.SavedResponse? && saved.selectedIds.Some? && |saved.selectedIds.value| > 0 then
        && r == (Session, Some(JoinIds(saved.selectedIds.value)))
        && ParseIdList(r.1.value) == saved.selectedIds.value
      else r == (New, None)
  {
    if saved.SavedResponse? && saved.selectedIds.Some? {
      ParseJoinIds(saved.selectedIds.value);
    }
  }

  // ---------------------------------------------------------------------------
  // fetchNextWord / updateProgressStats: request URLs

  predicate SendsIds(m: Mode, ids: Option<string>) {
    m == Session && Truthy(ids)
  }

  /** The URL fetchNextWord requests. */
  function NextWordUrl(m: Mode, ids: Option<string>): string {
    "/api/quiz/next?mode=" + ModeName(m) + (if SendsIds(m, ids) then "&ids=" + ids.value else "")
  }

  /** The URL updateProgressStats requests. */
  function StatsUrl(m: Mode, ids: Option<string>): string {
    "/api/progress/stats" + (if SendsIds(m, ids) then "?ids=" + ids.value else "")
  }

  /** The server reads the mode back from the next-word URL, and an `ids`
      parameter exactly when the mode is session with a non-empty ids string. */
  lemma NextWordUrlParams(m: Mode, ids: Option<string>)
    requires ids.Some? ==> '&' !in ids.value
    ensures QueryParam(NextWordUrl(m, ids), "mode") == Some(ModeName(m))
    ensures QueryParam(NextWordUrl(m, ids), "ids") == if SendsIds(m, ids) then ids else None
  {
    var path := "/api/quiz/next";
    assert '?' !in path;
    if SendsIds(m, ids) {
      assert NextWordUrl(m, ids) == path + "?" + "mode" + "=" + ModeName(m) + "&" + "ids" + "=" + ids.value;
      TwoParams(path, "mode", ModeName(m), "ids", ids.value);
    } else {
      assert NextWordUrl(m, ids) == path + "?" + "mode" + "=" + ModeName(m);
      OneParam(path, "mode", ModeName(m), "ids");
    }
  }

  /** The stats URL carries `ids` under the same condition as the next-word URL. */
  lemma StatsUrlParams(m: Mode, ids: Option<string>)
    requires ids.Some? ==> '&' !in ids.value
    ensures QueryParam(StatsUrl(m, ids), "ids") == if SendsIds(m, ids) then ids else None
  {
    var path := "/api/progress/stats";
    assert '?' !in path;
    if SendsIds(m, ids) {
      assert StatsUrl(m, ids) == path + "?" + "ids" + "=" + ids.value;
      OneParam(path, "ids", ids.value, "mode");
    } else {
      assert StatsUrl(m, ids) == path;
    }
  }

  /** Session mode with an ids string the server parses to a non-empty list:
      the next-word request draws from that list's unmastered words (falling
      back to any unmastered word), and the stats request counts that list. */
  lemma SessionRequests(words: Words, progress: ProgressTable, s: string)
    requires Truthy(Some(s)) && '&' !in s && |ParseIdList(s)| > 0
    ensures var url := NextWordUrl(Session, Some(s));
      var listed := SessionPool(words, progress, ParseIdList(s));
      && EligiblePool(words, progress, QueryParam(url, "mode"), QueryParam(url, "ids"))
         == (if listed != {} then listed else UnmasteredPool(words, progress))
      && StatsIds(QueryParam(StatsUrl(Session, Some(s)), "ids")) == ParseIdList(s)
  {
    NextWordUrlParams(Session, Some(s));
    StatsUrlParams(Session, Some(s));
    assert ModeName(Session) == "session";
    SessionPoolChoice(words, progress, s);
  }

  /** A session resumed from a saved list asks the server for a word of that
      list (falling back to any unmastered word), and for that list's counts. */
  lemma ResumedSessionRequests(words: Words, progress: ProgressTable, saved: seq<int>)
    requires |saved| > 0
    ensures var r := ResolveMode(None, None, SavedResponse(Some(saved)));
      var url := NextWordUrl(r.0, r.1);
      && EligiblePool(words, progress, QueryParam(url, "mode"), QueryParam(url, "ids"))
         == (if SessionPool(words, progress, saved) != {} then SessionPool(words, progress, saved)
             else UnmasteredPool(words, progress))
      && StatsIds(QueryParam(StatsUrl(r.0, r.1), "ids")) == saved
  {
    var s := JoinIds(saved);
    JoinIdsShape(saved);
    assert '&' !in s by {
      forall k | 0 <= k < |s| ensures s[k] != '&' {
        assert IdListChar(s[k]);
      }
    }
    ParseJoinIds(saved);
    SavedListResumed(None, None, SavedResponse(Some(saved)));
    SessionRequests(words, progress, s);
  }

  // ---------------------------------------------------------------------------
  // updateProgressStats: the mastery percentage

  /** `Number(x) || 0` for a count that may be null. */
  function NumberOr0(v: Option<nat>): nat {
    if v.Some? then v.value else 0
  }

  /** The (numerator, denominator) shown: the session pair in session mode
      when the server sent one, the global pair otherwise. */
  function Figures(m: Mode, stats: StatsResponse): (int, int) {
    if m == Session && stats.sessionTotal.Some? then
      (NumberOr0(stats.sessionMastered), NumberOr0(stats.sessionTotal))
    else (stats.mastered, stats.total)
  }

  function Min(a: real, b: real): real { if a <= b then a else b }
  function Max(a: real, b: real): real { if a >= b then a else b }

  /** The percentage before `toFixed(1)`: 0 for a non-positive denominator,
      always within [0, 100], and the plain ratio when the numerator lies
      between 0 and the denominator. */
  function Percentage(numerator: int, denominator: int): (p: real)
    ensures 0.0 <= p <= 100.0
    ensures denominator <= 0 ==> p == 0.0
    ensures 0 <= numerator <= denominator && denominator > 0 ==>
              p == (numerator as real / denominator as real) * 100.0
  {
    var raw := if denominator > 0 then (numerator as real / denominator as real) * 100.0 else 0.0;
    assert 0 <= numerator <= denominator && denominator > 0 ==> raw <= 100.0 by {
      if 0 <= numerator <= denominator && denominator > 0 {
        RatioAtMostOne(numerator as real, denominator as real);
      }
    }
    Max(0.0, Min(100.0, raw))
  }

  lemma RatioAtMostOne(n: real, d: real)
    requires 0.0 <= n <= d && d > 0.0
    ensures 0.0 <= (n / d) * 100.0 <= 100.0
  {
    assert n / d <= 1.0 by {
      assert (n / d) * d == n;
    }
  }

  /** Counts from a consistent server never need the clamp: the numerator
      lies between 0 and the denominator in every mode. */
  lemma ServerFiguresInRange(words: Words, progress: ProgressTable, idsParam: Option<string>, m: Mode)
    requires Consistent(words, progress)
    ensures var f := Figures(m, ProgressStats(words, progress, idsParam));
      0 <= f.0 <= f.1
  {
    MasteredAtMostTotal(words, progress, idsParam);
    SessionStats(words, progress, idsParam);
  }

  // ---------------------------------------------------------------------------
  // updateAnswerDisplay

  /** Slot i of the answer: the i-th letter clicked, or '_' when there is none. */
  function Slot(attempt: seq<char>, i: nat): char {
    if i < |attempt| then attempt[i] else '_'
  }

  /** One slot per letter of a word of length n. */
  function Slots(n: nat, attempt: seq<char>): (s: seq<char>)
    ensures |s| == n
    ensures forall i :: 0 <= i < n ==> s[i] == Slot(attempt, i)
  {
    seq(n, i requires 0 <= i < n => Slot(attempt, i))
  }

  /** Every character followed by one space. */
  function Spaced(cs: seq<char>): (r: string)
    ensures |r| == 2 * |cs|
  {
    if cs == [] then [] else Spaced(cs[..|cs| - 1]) + [cs[|cs| - 1], ' ']
  }

  const NoWordText := "_ _ _ _ _"

  /** The answer area's text for the current word and attempt. */
  function AnswerText(word: Option<CurrentWord>, attempt: seq<char>): string {
    if word.None? then NoWordText
    else Trim(Spaced(Slots(|word.value.english|, attempt)))
  }

  /** Character 2i of a spaced run is the i-th character, character 2i+1 a space. */
  lemma {:induction false} SpacedShape(cs: seq<char>)
    ensures forall i :: 0 <= i < |cs| ==> Spaced(cs)[2 * i] == cs[i] && Spaced(cs)[2 * i + 1] == ' '
  {
    if cs != [] {
      var p := cs[..|cs| - 1];
      SpacedShape(p);
      forall i | 0 <= i < |cs|
        ensures Spaced(cs)[2 * i] == cs[i] && Spaced(cs)[2 * i + 1] == ' '
      {
        if i < |p| {
          assert p[i] == cs[i];
        }
      }
    }
  }

  /** A spaced run starts with its first character. */
  lemma {:induction false} SpacedFirst(cs: seq<char>)
    requires cs != []
    ensures Spaced(cs)[0] == cs[0]
  {
    var p := cs[..|cs| - 1];
    if p != [] {
      SpacedFirst(p);
      assert p[0] == cs[0];
    }
  }

  /** A non-empty spaced run is its body, ending in the last character, and one space. */
  lemma SpacedLast(cs: seq<char>)
    requires cs != []
    ensures var sp := Spaced(cs); var body := sp[..2 * |cs| - 1];
      sp == body + " " && body[|body| - 1] == cs[|cs| - 1]
  {
    var sp := Spaced(cs);
    var body := Spaced(cs[..|cs| - 1]) + [cs[|cs| - 1]];
    assert sp == body + " ";
    assert body == sp[..2 * |cs| - 1];
  }

  /** Trimming a spaced run of non-whitespace ends drops its last space. */
  lemma TrimSpaced(cs: seq<char>)
    requires cs != [] && !IsWhitespace(cs[0]) && !IsWhitespace(cs[|cs| - 1])
    ensures Trim(Spaced(cs)) == Spaced(cs)[..2 * |cs| - 1]
  {
    var sp := Spaced(cs);
    var body := sp[..2 * |cs| - 1];
    SpacedLast(cs);
    SpacedFirst(cs);
    TrimStartUnchanged(sp);
    assert Trim(sp) == TrimEnd(body + " ");
    TrimEndPadded(body, " ");
  }

  /** With letters that are not whitespace, the answer text has exactly one
      slot per letter of the word, in order, the slots separated by single
      spaces and no space at either end; an empty word shows "". */
  lemma AnswerTextShape(w: CurrentWord, attempt: seq<char>)
    requires forall i :: 0 <= i < |attempt| ==> !IsWhitespace(attempt[i])
    ensures var t, n := AnswerText(Some(w), attempt), |w.english|;
      && (n == 0 ==> t == "")
      && (n > 0 ==> |t| == 2 * n - 1)
      && (forall i :: 0 <= i < n ==> t[2 * i] == Slot(attempt, i) && (i + 1 < n ==> t[2 * i + 1] == ' '))
  {
    var n := |w.english|;
    var cs := Slots(n, attempt);
    if n > 0 {
      assert cs[0] == Slot(attempt, 0) && cs[n - 1] == Slot(attempt, n - 1);
      TrimSpaced(cs);
      SpacedShape(cs);
      var t := AnswerText(Some(w), attempt);
      forall i | 0 <= i < n
        ensures t[2 * i] == Slot(attempt, i) && (i + 1 < n ==> t[2 * i + 1] == ' ')
      {
        assert cs[i] == Slot(attempt, i);
      }
    }
  }

  // ---------------------------------------------------------------------------
  // the page's spelling state

  /** The word the server sent (`word_id`, `english_word`, `chinese_definition`). */
  datatype CurrentWord = CurrentWord(id: int, english: string, chinese: string)

  /** The outcome of the next-word request: the server's answer or a failure. */
  datatype NextFetch = Received(response: NextResponse) | FetchError

  /** Letters clicked in order give the lowercased clicks as the attempt;
      the server grades that attempt correct exactly when it equals the
      lowercased stored spelling. */
  lemma ClickedAttemptGrading(clicked: string, english: string)
    requires forall i :: 0 <= i < |clicked| ==> !IsWhitespace(clicked[i])
    ensures IsCorrect(ToLower(clicked), english) <==> ToLower(clicked) == ToLower(english)
  {
    var a := ToLower(clicked);
    if a != [] {
      ToLowerCharFacts(clicked[0]);
      ToLowerCharFacts(clicked[|clicked| - 1]);
    }
    TrimUnchanged(a);
    ToLowerIdempotent(clicked);
  }

  class Page {
    var currentWord: Option<CurrentWord>
    var attempt: seq<char>
    var incorrectAttempts: nat
    var currentMode: Mode
    var sessionIds: Option<string>
    var answerText: string

    /** The attempt never outgrows the current word, holds no whitespace
        (whitespace letters get no click handler), and the ids string is
        present exactly in session mode. */
    ghost predicate Valid()
      reads this
    {
      && (currentWord.Some? ==> |attempt| <= |currentWord.value.english|)
      && (forall i :: 0 <= i < |attempt| ==> !IsWhitespace(attempt[i]))
      && (currentMode == Session <==> Truthy(sessionIds))
    }

    /** The globals as the script declares them. */
    constructor ()
      ensures Valid()
      ensures currentWord == None && attempt == [] && incorrectAttempts == 0
      ensures currentMode == New && sessionIds == None && answerText == ""
    {
      currentWord, attempt, incorrectAttempts := None, [], 0;
      currentMode, sessionIds, answerText := New, None, "";
    }

    /** initializeGame, up to its two requests: the mode and ids string. */
    method InitializeGame(modeParam: Option<string>, idsParam: Option<string>, saved: SavedList)
      requires Valid()
      modifies this`currentMode, this`sessionIds
      ensures Valid()
      ensures (currentMode, sessionIds) == ResolveMode(modeParam, idsParam, saved)
    {
      var r := ResolveMode(modeParam, idsParam, saved);
      currentMode, sessionIds := r.0, r.1;
    }

    /** updateAnswerDisplay: one slot and one space per letter, then trimmed. */
    method UpdateAnswerDisplay(attemptArray: seq<char>)
      modifies this`answerText
      ensures answerText == AnswerText(currentWord, attemptArray)
    {
      if currentWord.None? {
        answerText := NoWordText;
        return;
      }
      var n := |currentWord.value.english|;
      var display := "";
      for i := 0 to n
        invariant display == Spaced(Slots(n, attemptArray)[..i])
      {
        var slot := if i < |attemptArray| then attemptArray[i] else '_';
        assert Slots(n, attemptArray)[..i + 1][..i] == Slots(n, attemptArray)[..i];
        display := display + [slot, ' '];
      }
      assert Slots(n, attemptArray)[..n] == Slots(n, attemptArray);
      answerText := Trim(display);
    }

    /** fetchNextWord given the outcome of its request: the URL it asks, and
        on a word a fresh, empty attempt; on 404 or failure no current word. */
    method FetchNextWord(outcome: NextFetch) returns (apiUrl: string)
      requires Valid()
      modifies this`currentWord, this`attempt, this`incorrectAttempts, this`answerText
      ensures Valid()
      ensures apiUrl == NextWordUrl(currentMode, sessionIds)
      ensures outcome.Received? && outcome.response.NextWord? ==>
        && currentWord == Some(CurrentWord(outcome.response.id, outcome.response.english,
                                           outcome.response.chinese))
        && attempt == [] && incorrectAttempts == 0
        && answerText == AnswerText(currentWord, [])
      ensures !(outcome.Received? && outcome.response.NextWord?) ==>
        currentWord == None && attempt == old(attempt)
        && incorrectAttempts == old(incorrectAttempts) && answerText == ""
    {
      answerText := "";
      apiUrl := "/api/quiz/next?mode=" + ModeName(currentMode);
      if currentMode == Session && Truthy(sessionIds) {
        apiUrl := apiUrl + "&ids=" + sessionIds.value;
      }
      assert apiUrl == NextWordUrl(currentMode, sessionIds);
      if outcome.FetchError? || outcome.response.NoWordLeft? {
        currentWord := None;
        return;
      }
      var data := outcome.response;
      currentWord := Some(CurrentWord(data.id, data.english, data.chinese));
      UpdateAnswerDisplay([]);
      attempt := [];
      incorrectAttempts := 0;
    }

    /** handleLetterClick: ignored without a word or with a full attempt;
        otherwise the lowercased letter is appended, the slots redrawn, and
        the answer submitted exactly when the attempt has become full. */
    method HandleLetterClick(letter: char) returns (submitted: bool)
      requires Valid() && !IsWhitespace(letter)
      modifies this`attempt, this`answerText
      ensures Valid()
      ensures currentWord.None? || |old(attempt)| >= |currentWord.value.english| ==>
        attempt == old(attempt) && answerText == old(answerText) && !submitted
      ensures currentWord.Some? && |old(attempt)| < |currentWord.value.english| ==>
        && attempt == old(attempt) + [ToLowerChar(letter)]
        && answerText == AnswerText(currentWord, attempt)
        && (submitted <==> |attempt| == |currentWord.value.english|)
    {
      if currentWord.None? || |attempt| >= |currentWord.value.english| {
        return false;
      }
      ToLowerCharFacts(letter);
      attempt := attempt + [ToLowerChar(letter)];
      UpdateAnswerDisplay(attempt);
      submitted := |attempt| == |currentWord.value.english|;
    }

    /** handleClearAttempt: ignored without a word or with nothing typed;
        otherwise the attempt is emptied and the slots redrawn. */
    method HandleClearAttempt()
      requires Valid()
      modifies this`attempt, this`answerText
      ensures Valid()
      ensures currentWord.None? || old(attempt) == [] ==>
        attempt == old(attempt) && answerText == old(answerText)
      ensures currentWord.Some? && old(attempt) != [] ==>
        attempt == [] && answerText == AnswerText(currentWord, attempt)
    {
      if currentWord.None? || |attempt| == 0 {
        return;
      }
      attempt := [];
      UpdateAnswerDisplay(attempt);
    }
  }
}
