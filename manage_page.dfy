/**
 * The management page (manage.js): the HTML escaping of the word table's
 * cells, and the selection panel — one checkbox per listed word, a
 * select-all box, the start button and the two requests it derives from the
 * checked boxes (the saved selection and the session link).
 */
module ManagePage {
  import opened Wrappers
  import opened JsString
  import opened IdList
  import opened UrlQuery
  import opened ServerLogic
  import opened QuizPage

  // ---------------------------------------------------------------------------
  // escapeHTML

  /** `s.replace(/c/g, by)`: every `c` becomes `by`, every other character stays. */
  function ReplaceAll(s: string, c: char, rep: string): (r: string)
    ensures c !in rep ==> c !in r
    ensures c !in s ==> r == s
  {
    if s == [] then []
    else (if s[0] == c then rep else [s[0]]) + ReplaceAll(s[1..], c, rep)
  }

  /** The five replacements in the order the page applies them, '&' first. */
  function EscapeChain(s: string): string {
    var s1 := ReplaceAll(s, '&', "&amp;");
    var s2 := ReplaceAll(s1, '<', "&lt;");
    var s3 := ReplaceAll(s2, '>', "&gt;");
    var s4 := ReplaceAll(s3, '"', "&quot;");
    ReplaceAll(s4, '\'', "&#039;")
  }

  /** escapeHTML: '' for a missing or empty value, otherwise the chain.
      The result never contains a raw '<', '>', '"' or '\''. */
  function EscapeHtml(str: Option<string>): (r: string)
    ensures forall d :: d in r ==> d !in Raw
    ensures !Truthy(str) ==> r == ""
    ensures Truthy(str) ==> r == EscapeOnce(str.value)
  {
    if !Truthy(str) then ""
    else
      ChainIsOnePass(str.value);
      EscapeOnceNoRaw(str.value);
      EscapeChain(str.value)
  }

  /** The characters that must not appear unescaped in the table's HTML. */
  const Raw: seq<char> := "<>\"'"

  /** The reference escape of one character. */
  function EscapeChar(c: char): string {
    match c
    case '&' => "&amp;"
    case '<' => "&lt;"
    case '>' => "&gt;"
    case '"' => "&quot;"
    case '\'' => "&#039;"
    case _ => [c]
  }

  /** The reference escape: every character escaped on its own, in one pass. */
  function EscapeOnce(s: string): string {
    if s == [] then [] else EscapeChar(s[0]) + EscapeOnce(s[1..])
  }

  lemma {:induction false} ReplaceAllAppend(a: string, b: string, c: char, rep: string)
    ensures ReplaceAll(a + b, c, rep) == ReplaceAll(a, c, rep) + ReplaceAll(b, c, rep)
  {
    if a == [] {
      assert a + b == b;
    } else {
      assert (a + b)[1..] == a[1..] + b;
      ReplaceAllAppend(a[1..], b, c, rep);
    }
  }

  lemma ChainAppend(a: string, b: string)
    ensures EscapeChain(a + b) == EscapeChain(a) + EscapeChain(b)
  {
    var a1, b1 := ReplaceAll(a, '&', "&amp;"), ReplaceAll(b, '&', "&amp;");
    ReplaceAllAppend(a, b, '&', "&amp;");
    var a2, b2 := ReplaceAll(a1, '<', "&lt;"), ReplaceAll(b1, '<', "&lt;");
    ReplaceAllAppend(a1, b1, '<', "&lt;");
    var a3, b3 := ReplaceAll(a2, '>', "&gt;"), ReplaceAll(b2, '>', "&gt;");
    ReplaceAllAppend(a2, b2, '>', "&gt;");
    var a4, b4 := ReplaceAll(a3, '"', "&quot;"), ReplaceAll(b3, '"', "&quot;");
    ReplaceAllAppend(a3, b3, '"', "&quot;");
    ReplaceAllAppend(a4, b4, '\'', "&#039;");
  }

  /** The replacement of one character by an entity survives the later
      replacements untouched: no entity holds a character replaced after it. */
  lemma ChainChar(c: char)
    ensures EscapeChain([c]) == EscapeChar(c)
  {
    var s1 := ReplaceAll([c], '&', "&amp;");
    assert [c][1..] == [];
    if c == '&' {
      assert s1 == "&amp;";
      assert '<' !in s1 && '>' !in s1 && '"' !in s1 && '\'' !in s1;
    } else if c == '<' {
      assert s1 == [c];
      assert ReplaceAll(s1, '<', "&lt;") == "&lt;";
      assert '>' !in "&lt;" && '"' !in "&lt;" && '\'' !in "&lt;";
    } else if c == '>' {
      assert s1 == [c];
      assert ReplaceAll(s1, '>', "&gt;") == "&gt;";
      assert '"' !in "&gt;" && '\'' !in "&gt;";
    } else if c == '"' {
      assert s1 == [c];
      assert ReplaceAll(s1, '"', "&quot;") == "&quot;";
      assert '\'' !in "&quot;";
    } else if c == '\'' {
      assert s1 == [c];
      assert ReplaceAll(s1, '\'', "&#039;") == "&#039;";
    } else {
      assert s1 == [c];
    }
  }

  /** The one-pass escape holds no raw special character. */
  lemma {:induction false} EscapeOnceNoRaw(s: string)
    ensures forall d :: d in EscapeOnce(s) ==> d !in Raw
  {
    if s != [] {
      EscapeOnceNoRaw(s[1..]);
      var e := EscapeChar(s[0]);
      assert forall d :: d in e ==> d !in Raw;
    }
  }

  /** Replacing '&' first makes the chain equal to the one-pass escape. */
  lemma {:induction false} ChainIsOnePass(s: string)
    ensures EscapeChain(s) == EscapeOnce(s)
  {
    if s != [] {
      assert s == [s[0]] + s[1..];
      ChainAppend([s[0]], s[1..]);
      ChainChar(s[0]);
      ChainIsOnePass(s[1..]);
    }
  }

  /** A value without any of the five special characters is shown as is. */
  lemma {:induction false} PlainUnchanged(s: string)
    requires forall c :: c in s ==> c !in "&<>\"'"
    ensures EscapeOnce(s) == s
  {
    if s != [] {
      assert s[0] in s;
      PlainUnchanged(s[1..]);
    }
  }

  /** How a browser reads the five entities back. */
  function Unescape(t: string): string
    decreases |t|
  {
    if t == [] then []
    else if StartsWith(t, "&amp;") then "&" + Unescape(t[5..])
    else if StartsWith(t, "&lt;") then "<" + Unescape(t[4..])
    else if StartsWith(t, "&gt;") then ">" + Unescape(t[4..])
    else if StartsWith(t, "&quot;") then "\"" + Unescape(t[6..])
    else if StartsWith(t, "&#039;") then "'" + Unescape(t[6..])
    else [t[0]] + Unescape(t[1..])
  }

  lemma NotStartsWith(t: string, p: string, k: nat)
    requires k < |p| && (k >= |t| || t[k] != p[k])
    ensures !StartsWith(t, p)
  {
  }

  lemma UnescapeFront(e: string, rest: string, c: char)
    requires e == EscapeChar(c)
    ensures Unescape(e + rest) == [c] + Unescape(rest)
  {
    var t := e + rest;
    assert t[..|e|] == e;
    assert t[|e|..] == rest;
    if c == '&' {
      assert StartsWith(t, "&amp;");
    } else if c == '<' {
      NotStartsWith(t, "&amp;", 1);
      assert StartsWith(t, "&lt;");
    } else if c == '>' {
      NotStartsWith(t, "&amp;", 1);
      NotStartsWith(t, "&lt;", 1);
      assert StartsWith(t, "&gt;");
    } else if c == '"' {
      NotStartsWith(t, "&amp;", 1);
      NotStartsWith(t, "&lt;", 1);
      NotStartsWith(t, "&gt;", 1);
      assert StartsWith(t, "&quot;");
    } else if c == '\'' {
      NotStartsWith(t, "&amp;", 1);
      NotStartsWith(t, "&lt;", 1);
      NotStartsWith(t, "&gt;", 1);
      NotStartsWith(t, "&quot;", 1);
      assert StartsWith(t, "&#039;");
    } else {
      assert t[0] == c;
      NotStartsWith(t, "&amp;", 0);
      NotStartsWith(t, "&lt;", 0);
      NotStartsWith(t, "&gt;", 0);
      NotStartsWith(t, "&quot;", 0);
      NotStartsWith(t, "&#039;", 0);
      assert t[1..] == rest;
    }
  }

  /** What the table displays is exactly the stored value: reading the
      escaped text back gives the original string. */
  lemma {:induction false} UnescapeEscapeHtml(s: string)
    ensures Unescape(EscapeHtml(Some(s))) == s
  {
    if s != [] {
      ChainIsOnePass(s);
      EscapeOnceRoundTrip(s);
    }
  }

  lemma {:induction false} EscapeOnceRoundTrip(s: string)
    ensures Unescape(EscapeOnce(s)) == s
  {
    if s != [] {
      UnescapeFront(EscapeChar(s[0]), EscapeOnce(s[1..]), s[0]);
      EscapeOnceRoundTrip(s[1..]);
    }
  }

  // ---------------------------------------------------------------------------
  // the selection panel

  /** The number of checked boxes. */
  function CountChecked(checks: seq<bool>): (n: nat)
    ensures n <= |checks|
  {
    if checks == [] then 0
    else CountChecked(checks[..|checks| - 1]) + (if checks[|checks| - 1] then 1 else 0)
  }

  /** All boxes checked exactly when the count is the total; none exactly
      when it is 0. */
  lemma {:induction false} CountCheckedExtremes(checks: seq<bool>)
    ensures CountChecked(checks) == |checks| <==> forall i :: 0 <= i < |checks| ==> checks[i]
    ensures CountChecked(checks) == 0 <==> forall i :: 0 <= i < |checks| ==> !checks[i]
  {
    if checks != [] {
      var p := checks[..|checks| - 1];
      CountCheckedExtremes(p);
      assert forall i :: 0 <= i < |p| ==> p[i] == checks[i];
    }
  }

  /** The ids of the checked boxes, in page order. */
  function CheckedIds(ids: seq<int>, checks: seq<bool>): (r: seq<int>)
    requires |ids| == |checks|
    ensures |r| == CountChecked(checks)
    ensures forall x :: x in r ==> x in ids
  {
    if ids == [] then []
    else
      var n := |ids| - 1;
      CheckedIds(ids[..n], checks[..n]) + (if checks[n] then [ids[n]] else [])
  }

  /** (start button enabled, select-all indeterminate, select-all checked)
      for `count` checked boxes out of `total`. */
  function ButtonState(count: nat, total: nat): (r: (bool, bool, bool))
    ensures !(r.1 && r.2)
  {
    (count > 0, count > 0 && count < total, total > 0 && count == total)
  }

  /** In terms of the boxes: the start button is enabled exactly when some box
      is checked; select-all is checked exactly when there are boxes and all
      are checked, and indeterminate exactly when some are checked and some
      are not. */
  lemma PanelStateMeaning(checks: seq<bool>)
    ensures var r := ButtonState(CountChecked(checks), |checks|);
      && (r.0 <==> exists i :: 0 <= i < |checks| && checks[i])
      && (r.2 <==> |checks| > 0 && forall i :: 0 <= i < |checks| ==> checks[i])
      && (r.1 <==> (exists i :: 0 <= i < |checks| && checks[i])
                   && (exists i :: 0 <= i < |checks| && !checks[i]))
  {
    CountCheckedExtremes(checks);
  }

  /** The link the start button opens for the checked ids. */
  function SessionLink(checked: seq<int>): string {
    "/?mode=session&ids=" + JoinIds(checked)
  }

  /** The quiz page opened at a session link starts a session whose ids the
      server reads as exactly the checked ids, whatever was saved. */
  lemma SessionLinkStartsSession(checked: seq<int>, saved: SavedList)
    requires checked != []
    ensures var link := SessionLink(checked);
      var r := ResolveMode(QueryParam(link, "mode"), QueryParam(link, "ids"), saved);
      r.0 == Session && ParseIdList(r.1.value) == checked
  {
    var s := JoinIds(checked);
    JoinIdsShape(checked);
    assert '&' !in s by {
      forall k | 0 <= k < |s| ensures s[k] != '&' {
        assert IdListChar(s[k]);
      }
    }
    assert SessionLink(checked) == "/" + "?" + "mode" + "=" + "session" + "&" + "ids" + "=" + s;
    TwoParams("/", "mode", "session", "ids", s);
    ParseJoinIds(checked);
  }

  /** One `selected_ids` element: `parseInt(value, 10)`, which JSON.stringify
      sends as null when it is NaN. */
  function SavedElement(value: string): IdJson {
    match ParseInt(value)
    case Some(n) => Num(n)
    case None => Null
  }

  /** The body saveCurrentSelection sends for the checkbox values. */
  function SavedBody(values: seq<string>): (body: seq<IdJson>)
    ensures |body| == |values|
  {
    seq(|values|, i requires 0 <= i < |values| => SavedElement(values[i]))
  }

  /** saveCurrentSelection's body: the parsed value of every checked box, in
      page order, each value being the row's rendered word id. */
  function SelectionBody(ids: seq<int>, checks: seq<bool>): seq<IdJson>
    requires |ids| == |checks|
  {
    SavedBody(IdStrings(CheckedIds(ids, checks)))
  }

  /** The server stores exactly the checked ids, in page order, when the
      checkbox values are the rendered word ids. */
  lemma SavedSelectionStored(ids: seq<int>, checks: seq<bool>)
    requires |ids| == |checks|
    ensures ValidatedIds(SelectionBody(ids, checks)) == CheckedIds(ids, checks)
  {
    var xs := CheckedIds(ids, checks);
    forall i | 0 <= i < |xs| ensures SavedBody(IdStrings(xs))[i] == AsJson(xs)[i] {
      ParseIntToString(xs[i]);
    }
    assert SavedBody(IdStrings(xs)) == AsJson(xs);
    ValidatedNumbers(xs);
  }

  /** A value that is not a number is saved as null, which the server stores as 0. */
  lemma NaNValueStoredAsZero(value: string)
    requires ParseInt(value) == None
    ensures ValidatedIds(SavedBody([value])) == [0]
  {
    assert SavedBody([value]) == [Null];
    assert [Null][1..] == [];
  }

  lemma IdStringsAppend(xs: seq<int>, x: int)
    ensures IdStrings(xs + [x]) == IdStrings(xs) + [IntToString(x)]
  {
  }

  class SelectionPanel {
    /** The word id of each listed row, in page order (the checkbox `value`). */
    var ids: seq<int>
    /** The checked state of each row's checkbox. */
    var boxes: array<bool>
    var selectedCount: nat
    var startEnabled: bool
    var selectAllIndeterminate: bool
    var selectAllChecked: bool

    ghost predicate Valid()
      reads this
    {
      boxes.Length == |ids|
    }

    /** A freshly rendered list: each row's box checked as the server marked it. */
    constructor (rowIds: seq<int>, selected: seq<bool>)
      requires |rowIds| == |selected|
      ensures Valid() && fresh(boxes)
      ensures ids == rowIds && boxes[..] == selected
      ensures selectedCount == 0 && !startEnabled && !selectAllIndeterminate && !selectAllChecked
    {
      ids := rowIds;
      boxes := new bool[|selected|](i requires 0 <= i < |selected| => selected[i]);
      selectedCount, startEnabled, selectAllIndeterminate, selectAllChecked := 0, false, false, false;
    }

    /** updateSessionButtonState: count the checked boxes, then set the start
        button and the select-all box from the count. */
    method UpdateSessionButtonState()
      requires Valid()
      modifies this`selectedCount, this`startEnabled, this`selectAllIndeterminate, this`selectAllChecked
      ensures Valid()
      ensures selectedCount == CountChecked(boxes[..])
      ensures (startEnabled, selectAllIndeterminate, selectAllChecked)
              == ButtonState(selectedCount, boxes.Length)
    {
      var count := 0;
      for i := 0 to boxes.Length
        invariant count == CountChecked(boxes[..i])
      {
        assert boxes[..i + 1][..i] == boxes[..i];
        if boxes[i] {
          count := count + 1;
        }
      }
      assert boxes[..boxes.Length] == boxes[..];
      selectedCount := count;
      startEnabled := count > 0;
      selectAllIndeterminate := count > 0 && count < boxes.Length;
      selectAllChecked := boxes.Length > 0 && count == boxes.Length;
    }

    /** The select-all handler: every box takes the select-all box's value,
        the panel is recomputed and the selection saved; afterwards the count
        is the total or 0. */
    method SelectAllChanged(isChecked: bool) returns (body: seq<IdJson>)
      requires Valid()
      modifies boxes, this`selectedCount, this`startEnabled, this`selectAllIndeterminate,
               this`selectAllChecked
      ensures Valid()
      ensures forall i :: 0 <= i < boxes.Length ==> boxes[i] == isChecked
      ensures selectedCount == if isChecked then boxes.Length else 0
      ensures (startEnabled, selectAllIndeterminate, selectAllChecked)
              == ButtonState(selectedCount, boxes.Length)
      ensures body == SelectionBody(ids, boxes[..])
    {
      for i := 0 to boxes.Length
        invariant forall j :: 0 <= j < i ==> boxes[j] == isChecked
      {
        boxes[i] := isChecked;
      }
      UpdateSessionButtonState();
      CountCheckedExtremes(boxes[..]);
      body := SelectionBody(ids, boxes[..]);
    }

    /** The start button's handler: collect the checked values; with at least
        one, the session link for them, otherwise no navigation. */
    method StartSession() returns (redirect: Option<string>)
      requires Valid()
      ensures CheckedIds(ids, boxes[..]) == [] ==> redirect == None
      ensures CheckedIds(ids, boxes[..]) != [] ==> redirect == Some(SessionLink(CheckedIds(ids, boxes[..])))
    {
      var selected: seq<string> := [];
      ghost var chosen: seq<int> := [];
      for i := 0 to boxes.Length
        invariant chosen == CheckedIds(ids[..i], boxes[..i])
        invariant selected == IdStrings(chosen)
      {
        assert ids[..i + 1][..i] == ids[..i] && boxes[..i + 1][..i] == boxes[..i];
        if boxes[i] {
          IdStringsAppend(chosen, ids[i]);
          selected := selected + [IntToString(ids[i])];
          chosen := chosen + [ids[i]];
        }
      }
      assert ids[..boxes.Length] == ids && boxes[..boxes.Length] == boxes[..];
      if |selected| > 0 {
        redirect := Some("/?mode=session&ids=" + Join(selected, ','));
      } else {
        redirect := None;
      }
    }
  }
}
