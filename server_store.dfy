/**
 * The server's handlers over its mutable tables: the `words` catalogue, the
 * `user_progress` records of user 1, the stored session selection
 * (`current_practice_session` for user 1) and the words' auto-increment counter.
 */
module ServerStore {
  import opened Wrappers
  import opened IdList
  import opened ServerLogic

  /** GET /api/quiz/next: the chosen word (200) or 404. */
  datatype NextResponse = NextWord(id: int, english: string, chinese: string) | NoWordLeft

  /** PUT /api/session/current: 200, or 400 when selected_ids is not an array. */
  datatype PutResponse = PutDone | PutBadRequest

  /** POST /api/words/import: 400 without a file, 400 for no data rows, or the counts. */
  datatype ImportResponse = ImportNoFile | ImportEmpty | ImportDone(processed: nat, imported: nat, skipped: nat)

  /** Every pool is drawn from the catalogue. */
  lemma PoolInCatalogue(words: Words, progress: ProgressTable, modeParam: Option<string>, idsParam: Option<string>)
    ensures EligiblePool(words, progress, modeParam, idsParam) <= words.Keys
  {
  }

  /** The import leaves the progress table consistent with the grown catalogue. */
  lemma ImportKeepsValid(st0: ImportState, st: ImportState, n: nat, progress: ProgressTable)
    requires Consistent(st0.words, progress)
    requires ImportInvariant(st0, st, n)
    ensures Consistent(st.words, progress) && FreshIds(st.words, st.nextId)
  {
  }

  class Store {
    var words: Words
    var progress: ProgressTable
    var selection: seq<int>
    var nextWordId: int

    ghost predicate Valid()
      reads this
    {
      Consistent(words, progress) && FreshIds(words, nextWordId)
    }

    /** An empty database: no words, no progress, no stored selection. */
    constructor ()
      ensures Valid()
      ensures words == map[] && progress == map[] && selection == []
    {
      words, progress, selection, nextWordId := map[], map[], [], 1;
    }

    /** GET /api/quiz/next?mode=..&ids=..: some word of the mode's pool
        (`ORDER BY RAND() LIMIT 1`), 404 exactly when the pool is empty. */
    method SelectNext(modeParam: Option<string>, idsParam: Option<string>) returns (r: NextResponse)
      ensures r.NoWordLeft? <==> EligiblePool(words, progress, modeParam, idsParam) == {}
      ensures r.NextWord? ==> && r.id in EligiblePool(words, progress, modeParam, idsParam)
                              && r.id in words
                              && r.english == words[r.id].english
                              && r.chinese == words[r.id].chinese
    {
      var pool := EligiblePool(words, progress, modeParam, idsParam);
      PoolInCatalogue(words, progress, modeParam, idsParam);
      if pool == {} {
        r := NoWordLeft;
      } else {
        var id :| id in pool;
        r := NextWord(id, words[id].english, words[id].chinese);
      }
    }

    /** POST /api/quiz/submit: validate, grade, read the streak, upsert the record. */
    method Submit(wordId: Option<int>, attempt: Option<string>) returns (r: SubmitResponse)
      requires Valid()
      modifies this`progress
      ensures Valid()
      ensures (r, progress) == SubmitOutcome(old(words), old(progress), wordId, attempt)
    {
      SubmitConsistent(words, progress, wordId, attempt);
      if FalsyId(wordId) || attempt.None? {
        return SubmitBadRequest;
      }
      var id := wordId.value;
      if id !in words {
        return SubmitNotFound;
      }
      var correctSpelling := words[id].english;
      var isCorrect := IsCorrect(attempt.value, correctSpelling);
      var currentStreak := 0;
      if id in progress {
        currentStreak := progress[id].streak;
      }
      var newStreak, newIsMastered := 0, false;
      if isCorrect {
        newStreak := currentStreak + 1;
        newIsMastered := MasteryFrom(newStreak);
      }
      progress := progress[id := Progress(newStreak, newIsMastered)];
      r := Graded(isCorrect, if isCorrect then None else Some(correctSpelling));
    }

    /** PUT /api/progress/reset/:word_id: update an existing record, else
        insert one, which the foreign key refuses for an unknown word. */
    method Reset(param: string) returns (r: ResetResponse)
      requires Valid()
      modifies this`progress
      ensures Valid()
      ensures (r, progress) == ResetOutcome(old(words), old(progress), param)
    {
      ResetEffect(words, progress, param);
      var parsed := JsString.ParseInt(param);
      if parsed.None? {
        return ResetBadRequest;
      }
      var id := parsed.value;
      if id in progress {
        progress := progress[id := Progress(0, false)];
        r := ResetDone;
      } else if id in words {
        progress := progress[id := Progress(0, false)];
        r := ResetDone;
      } else {
        r := ResetNotFound;
      }
    }

    /** PUT /api/session/current: replace the whole stored list with the
        numeric elements of the body; a body that is not an array is refused. */
    method PutSelection(body: Option<seq<IdJson>>) returns (r: PutResponse)
      modifies this`selection
      ensures r == PutBadRequest <==> body.None?
      ensures selection == if body.Some? then ValidatedIds(body.value) else old(selection)
    {
      if body.None? {
        return PutBadRequest;
      }
      selection := ValidatedIds(body.value);
      r := PutDone;
    }

    /** GET /api/session/current: the stored list ([] when none was stored). */
    method GetSelection() returns (ids: seq<int>)
      ensures ids == selection
    {
      ids := selection;
    }

    /** POST /api/words/import over the parsed rows: count each row as imported
        or skipped while inserting the usable, new ones. */
    method Import(file: Option<seq<CsvRow>>) returns (r: ImportResponse)
      requires Valid()
      modifies this`words, this`nextWordId
      ensures Valid()
      ensures file.None? ==> r == ImportNoFile && words == old(words) && nextWordId == old(nextWordId)
      ensures file == Some([]) ==> r == ImportEmpty && words == old(words) && nextWordId == old(nextWordId)
      ensures file.Some? && file.value != [] ==>
        var st := ImportAll(ImportState(old(words), old(nextWordId), 0, 0), file.value);
        && r == ImportDone(|file.value|, st.imported, st.skipped)
        && words == st.words && nextWordId == st.nextId
      ensures r.ImportDone? ==> r.imported + r.skipped == r.processed
      ensures r.ImportDone? ==> |words| == |old(words)| + r.imported
      ensures Extends(old(words), words)
    {
      if file.None? {
        return ImportNoFile;
      }
      var rows := file.value;
      if |rows| == 0 {
        return ImportEmpty;
      }
      ghost var st0 := ImportState(words, nextWordId, 0, 0);
      var importedCount, skippedCount := 0, 0;
      for i := 0 to |rows|
        invariant ImportState(words, nextWordId, importedCount, skippedCount) == ImportAll(st0, rows[..i])
      {
        assert rows[..i + 1][..i] == rows[..i];
        ghost var before := ImportState(words, nextWordId, importedCount, skippedCount);
        var row := rows[i];
        var engWord := Cleaned(row.english);
        var cnDef := Cleaned(row.chinese);
        if Truthy(engWord) && Truthy(cnDef) {
          if EnglishTaken(words, engWord.value) {
            skippedCount := skippedCount + 1;
          } else {
            var w := Word(engWord.value, cnDef.value, Cleaned(row.exampleEn), Cleaned(row.exampleCn), None);
            words := words[nextWordId := w];
            nextWordId := nextWordId + 1;
            importedCount := importedCount + 1;
          }
        } else {
          skippedCount := skippedCount + 1;
        }
        assert ImportState(words, nextWordId, importedCount, skippedCount) == ImportStep(before, row);
        assert ImportAll(st0, rows[..i + 1]) == ImportStep(ImportAll(st0, rows[..i]), rows[i]);
      }
      assert rows[..|rows|] == rows;
      ImportAllKeeps(st0, rows);
      ImportKeepsValid(st0, ImportAll(st0, rows), |rows|, progress);
      r := ImportDone(|rows|, importedCount, skippedCount);
    }
  }
}
