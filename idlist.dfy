/**
 * The comma-separated word-id lists that travel in the `ids` query parameter,
 * and the `selected_ids` array of the session-selection store.
 */
module IdList {
  import opened Wrappers
  import opened JsString

  /** The ids the pieces of a split denote: parseInt of each trimmed piece,
      NaN pieces dropped, order and repetitions kept. */
  function ParsePieces(pieces: seq<string>): (ids: seq<int>)
    ensures |ids| <= |pieces|
  {
    if pieces == [] then []
    else
      var rest := ParsePieces(pieces[1..]);
      match ParseInt(Trim(pieces[0]))
      case Some(n) => [n] + rest
      case None => rest
  }

  /** `param.split(',').map(id => parseInt(id.trim(), 10)).filter(id => !isNaN(id))`. */
  function ParseIdList(param: string): seq<int> {
    ParsePieces(Split(param, ','))
  }

  /** `ids.join(',')` for a list of numbers. */
  function JoinIds(ids: seq<int>): string {
    Join(IdStrings(ids), ',')
  }

  /** `ids.map(String)`: one rendered id per id, in order. */
  function IdStrings(ids: seq<int>): (r: seq<string>)
    ensures |r| == |ids|
  {
    seq(|ids|, i requires 0 <= i < |ids| => IntToString(ids[i]))
  }

  /** Every rendered id holds no comma and reads back, trimmed and parsed, as its id. */
  lemma IdStringsReadBack(ids: seq<int>)
    ensures forall i :: 0 <= i < |ids| ==> ',' !in IdStrings(ids)[i] && ParseInt(Trim(IdStrings(ids)[i])) == Some(ids[i])
  {
    forall i | 0 <= i < |ids|
      ensures ',' !in IdStrings(ids)[i] && ParseInt(Trim(IdStrings(ids)[i])) == Some(ids[i])
    {
      IdReadsBack(ids[i]);
    }
  }

  /** A rendered id holds no comma and is its own trim, so it reads back as itself. */
  lemma IdReadsBack(n: int)
    ensures ',' !in IntToString(n) && ParseInt(Trim(IntToString(n))) == Some(n)
  {
    IntToStringShape(n);
    TrimUnchanged(IntToString(n));
    ParseIntToString(n);
  }

  lemma {:induction false} ParsePiecesAppend(a: seq<string>, b: seq<string>)
    ensures ParsePieces(a + b) == ParsePieces(a) + ParsePieces(b)
  {
    if a == [] {
      assert a + b == b;
    } else {
      assert (a + b)[1..] == a[1..] + b;
      ParsePiecesAppend(a[1..], b);
    }
  }

  /** The comma list is a homomorphism: the ids of `s,t` are the ids of `s`
      followed by the ids of `t` (order and duplicates are kept). */
  lemma ParseIdListAppend(s: string, t: string)
    ensures ParseIdList(s + "," + t) == ParseIdList(s) + ParseIdList(t)
  {
    SplitAppend(s, t, ',');
    ParsePiecesAppend(Split(s, ','), Split(t, ','));
  }

  /** A rendered integer is a minus sign or digits, ending in a digit. */
  lemma IntToStringShape(n: int)
    ensures var s := IntToString(n);
      && s != []
      && (forall k :: 0 <= k < |s| ==> s[k] == '-' || IsDigit(s[k]))
      && !IsWhitespace(s[0]) && IsDigit(s[|s| - 1])
  {
  }

  lemma {:induction false} ParsePiecesOfIdStrings(ids: seq<int>)
    ensures ParsePieces(IdStrings(ids)) == ids
  {
    if ids != [] {
      var s := IntToString(ids[0]);
      ParseIntToString(ids[0]);
      IntToStringShape(ids[0]);
      TrimUnchanged(s);
      assert IdStrings(ids) == [s] + IdStrings(ids[1..]);
      ParsePiecesOfIdStrings(ids[1..]);
    }
  }

  /** The server reads back exactly the list a client joined with commas;
      the empty list joins to "" and reads back as empty. */
  lemma ParseJoinIds(ids: seq<int>)
    ensures ParseIdList(JoinIds(ids)) == ids
  {
    var strs := IdStrings(ids);
    if ids == [] {
      assert Split("", ',') == [""];
      assert Trim("") == "";
      ParseIntNaN();
    } else {
      forall i | 0 <= i < |strs| ensures ',' !in strs[i] {
        IntToStringShape(ids[i]);
      }
      SplitJoin(strs, ',');
      ParsePiecesOfIdStrings(ids);
    }
  }

  predicate IdListChar(c: char) {
    c == ',' || c == '-' || IsDigit(c)
  }

  /** A joined id list holds only digits, minus signs and commas, so it can
      sit in a query string unescaped; it is empty only for no ids. */
  lemma {:induction false} JoinIdsShape(ids: seq<int>)
    ensures forall k :: 0 <= k < |JoinIds(ids)| ==> IdListChar(JoinIds(ids)[k])
    ensures JoinIds(ids) == [] <==> ids == []
  {
    if ids != [] {
      var s := IntToString(ids[0]);
      IntToStringShape(ids[0]);
      if |ids| > 1 {
        assert IdStrings(ids)[1..] == IdStrings(ids[1..]);
        assert JoinIds(ids) == s + [','] + JoinIds(ids[1..]);
        JoinIdsShape(ids[1..]);
      }
    }
  }

  /** An absent or empty list parses to no id. */
  lemma ParseIdListEmpty()
    ensures ParseIdList("") == []
  {
    assert Split("", ',') == [""];
    assert Trim("") == "";
    ParseIntNaN();
    assert ParsePieces([""]) == [];
  }

  /** A repeated id is kept twice ("5,5" reads as [5, 5]). */
  lemma ParseIdListRepeated(n: int)
    ensures ParseIdList(IntToString(n) + "," + IntToString(n)) == [n, n]
  {
    var s := IntToString(n);
    ParseIdListAppend(s, s);
    ParseIdListSingle(n);
    assert [n] + [n] == [n, n];
  }

  /** A lone rendered id reads back as that one id. */
  lemma ParseIdListSingle(n: int)
    ensures ParseIdList(IntToString(n)) == [n]
  {
    var s := IntToString(n);
    IntToStringShape(n);
    assert ',' !in s;
    assert Split(s, ',') == [s];
    TrimUnchanged(s);
    ParseIntToString(n);
    assert ParsePieces([s]) == [n];
  }

  /** A piece that starts with neither a sign nor a digit is dropped (as "x" is). */
  lemma ParseIdListNonNumeric(p: string)
    requires ',' !in p && p != []
    requires !IsWhitespace(p[0]) && !IsDigit(p[0]) && p[0] != '-' && p[0] != '+'
    ensures ParseIdList(p) == []
  {
    assert Split(p, ',') == [p];
    TrimStartUnchanged(p);
    var t := TrimEnd(p);
    assert |t| > 0 && t[0] == p[0];
    TrimStartUnchanged(t);
    assert ParseDigits(t) == None;
    assert ParseInt(Trim(p)) == None;
  }

  /** A piece keeps its leading integer and loses what follows it (as in "7y"). */
  lemma ParseIdListSuffix(n: int, rest: string)
    requires ',' !in rest
    requires rest != [] ==> !IsDigit(rest[0]) && !IsWhitespace(rest[|rest| - 1])
    ensures ParseIdList(IntToString(n) + rest) == [n]
  {
    var s := IntToString(n);
    var piece := s + rest;
    IntToStringShape(n);
    assert piece[0] == s[0];
    assert piece[|piece| - 1] == if rest == [] then s[|s| - 1] else rest[|rest| - 1];
    assert ',' !in piece;
    TrimUnchanged(piece);
    ParseIntSuffix(n, rest);
    assert ParsePieces([piece]) == [n];
  }

  // ---------------------------------------------------------------------------
  // PUT /api/session/current body

  /** One element of the `selected_ids` array, as JavaScript's Number() sees it:
      a number, JSON null (which Number() turns into 0), or anything Number()
      turns into NaN. */
  datatype IdJson = Num(n: int) | Null | NotNumeric

  /** `Number(id)`, None standing for NaN. */
  function ToNumber(v: IdJson): Option<int> {
    match v
    case Num(n) => Some(n)
    case Null => Some(0)
    case NotNumeric => None
  }

  /** `selected_ids.map(id => Number(id)).filter(id => !isNaN(id))`. */
  function ValidatedIds(body: seq<IdJson>): (ids: seq<int>)
    ensures |ids| <= |body|
    ensures (forall i :: 0 <= i < |body| ==> body[i] != NotNumeric) ==> |ids| == |body|
  {
    if body == [] then []
    else
      var rest := ValidatedIds(body[1..]);
      match ToNumber(body[0])
      case Some(n) => [n] + rest
      case None => rest
  }

  function AsJson(ids: seq<int>): (body: seq<IdJson>)
  {
    seq(|ids|, i requires 0 <= i < |ids| => Num(ids[i]))
  }

  /** The filter works element by element: the stored list of a concatenated
      body is the stored list of each part, in order. */
  lemma {:induction false} ValidatedIdsAppend(a: seq<IdJson>, b: seq<IdJson>)
    ensures ValidatedIds(a + b) == ValidatedIds(a) + ValidatedIds(b)
  {
    if a == [] {
      assert a + b == b;
    } else {
      assert (a + b)[1..] == a[1..] + b;
      ValidatedIdsAppend(a[1..], b);
    }
  }

  /** One element: a number is kept, null becomes 0, anything NaN is dropped. */
  lemma ValidatedIdsElement(v: IdJson)
    ensures v.Num? ==> ValidatedIds([v]) == [v.n]
    ensures v.Null? ==> ValidatedIds([v]) == [0]
    ensures v.NotNumeric? ==> ValidatedIds([v]) == []
  {
    assert [v][1..] == [];
  }

  /** A body of plain numbers is stored exactly as sent. */
  lemma {:induction false} ValidatedNumbers(ids: seq<int>)
    ensures ValidatedIds(AsJson(ids)) == ids
  {
    if ids != [] {
      assert AsJson(ids)[1..] == AsJson(ids[1..]);
      ValidatedNumbers(ids[1..]);
    }
  }
}
