/**
 * The handful of JavaScript string primitives that the trainer's code relies on:
 * String.prototype.trim, toLowerCase, split and join on one separator character,
 * the decimal rendering of an integer, and parseInt(s, 10).
 * Strings are sequences of characters.
 */
module JsString {
  import opened Wrappers

  /** The characters String.prototype.trim removes: WhiteSpace and LineTerminator. */
  predicate IsWhitespace(c: char) {
    || ('\t' <= c <= '\r')            // tab, line feed, vertical tab, form feed, carriage return
    || c == ' ' || c == '\U{A0}' || c == '\U{1680}'
    || ('\U{2000}' <= c <= '\U{200A}')
    || c == '\U{2028}' || c == '\U{2029}' || c == '\U{202F}' || c == '\U{205F}'
    || c == '\U{3000}' || c == '\U{FEFF}'
  }

  predicate IsDigit(c: char) {
    '0' <= c <= '9'
  }

  /** Drops leading whitespace: the result is the suffix starting at the first
      non-whitespace character. */
  function TrimStart(s: string): (r: string)
    ensures |r| <= |s| && r == s[|s| - |r|..]
    ensures forall i :: 0 <= i < |s| - |r| ==> IsWhitespace(s[i])
    ensures r == [] || !IsWhitespace(r[0])
  {
    if s != [] && IsWhitespace(s[0]) then TrimStart(s[1..]) else s
  }

  /** Drops trailing whitespace: the result is the prefix ending at the last
      non-whitespace character. */
  function TrimEnd(s: string): (r: string)
    ensures |r| <= |s| && r == s[..|r|]
    ensures forall i :: |r| <= i < |s| ==> IsWhitespace(s[i])
    ensures r == [] || !IsWhitespace(r[|r| - 1])
  {
    if s != [] && IsWhitespace(s[|s| - 1]) then TrimEnd(s[..|s| - 1]) else s
  }

  /** String.prototype.trim. */
  function Trim(s: string): string {
    TrimEnd(TrimStart(s))
  }

  /** A string whose ends are not whitespace is its own trim. */
  lemma TrimUnchanged(s: string)
    requires s == [] || (!IsWhitespace(s[0]) && !IsWhitespace(s[|s| - 1]))
    ensures Trim(s) == s
  {
  }

  /** Trimming removes exactly whitespace added at either end. */
  lemma TrimPadded(pre: string, s: string, post: string)
    requires forall c <- pre :: IsWhitespace(c)
    requires forall c <- post :: IsWhitespace(c)
    requires s == [] || (!IsWhitespace(s[0]) && !IsWhitespace(s[|s| - 1]))
    ensures Trim(pre + s + post) == s
  {
    if s == [] {
      assert pre + s + post == (pre + post) + [];
      TrimStartPadded(pre + post, []);
    } else {
      assert pre + s + post == pre + (s + post);
      TrimStartPadded(pre, s + post);
      TrimEndPadded(s, post);
    }
  }

  lemma {:induction false} TrimStartPadded(pre: string, x: string)
    requires forall c <- pre :: IsWhitespace(c)
    requires x != [] ==> !IsWhitespace(x[0])
    ensures TrimStart(pre + x) == if x == [] then [] else x
  {
    if pre == [] {
      assert pre + x == x;
      if x == [] {
      }
    } else {
      assert (pre + x)[0] == pre[0];
      assert (pre + x)[1..] == pre[1..] + x;
      TrimStartPadded(pre[1..], x);
    }
  }

  lemma {:induction false} TrimEndPadded(x: string, post: string)
    requires forall c <- post :: IsWhitespace(c)
    requires x != [] && !IsWhitespace(x[|x| - 1])
    ensures TrimEnd(x + post) == x
  {
    if post == [] {
      assert x + post == x;
    } else {
      var t := x + post;
      assert t[|t| - 1] == post[|post| - 1];
      assert t[..|t| - 1] == x + post[..|post| - 1];
      TrimEndPadded(x, post[..|post| - 1]);
    }
  }

  /** toLowerCase on one character (ASCII letters only). */
  function ToLowerChar(c: char): char {
    if 'A' <= c <= 'Z' then (c as int + 32) as char else c
  }

  /** String.prototype.toLowerCase (ASCII letters only): no capital letter
      survives, every other character is kept, and so is whitespace. */
  function ToLower(s: string): (r: string)
    ensures |r| == |s|
    ensures forall i :: 0 <= i < |r| ==> !('A' <= r[i] <= 'Z')
    ensures forall i :: 0 <= i < |s| && !('A' <= s[i] <= 'Z') ==> r[i] == s[i]
    ensures forall i :: 0 <= i < |s| ==> IsWhitespace(r[i]) == IsWhitespace(s[i])
  {
    seq(|s|, i requires 0 <= i < |s| => ToLowerChar(s[i]))
  }

  /** Lower-casing is idempotent and never creates or removes whitespace. */
  lemma ToLowerCharFacts(c: char)
    ensures ToLowerChar(ToLowerChar(c)) == ToLowerChar(c)
    ensures IsWhitespace(ToLowerChar(c)) == IsWhitespace(c)
    ensures !('A' <= ToLowerChar(c) <= 'Z')
  {
  }

  // ---------------------------------------------------------------------------
  // split / join on one separator character

  /** Array.prototype.join(sep) over strings; joining nothing gives "". */
  function Join(parts: seq<string>, sep: char): string {
    if |parts| == 0 then ""
    else if |parts| == 1 then parts[0]
    else parts[0] + [sep] + Join(parts[1..], sep)
  }

  function IndexOf(s: string, c: char): (i: nat)
    requires c in s
    ensures i < |s| && s[i] == c && c !in s[..i]
  {
    if s[0] == c then 0 else 1 + IndexOf(s[1..], c)
  }

  /** String.prototype.split(sep): the pieces between separators, in order.
      The pieces contain no separator; "" splits into the single piece "". */
  function Split(s: string, sep: char): (r: seq<string>)
    ensures |r| >= 1
    ensures forall i :: 0 <= i < |r| ==> sep !in r[i]
    decreases |s|
  {
    if sep !in s then [s]
    else
      var i := IndexOf(s, sep);
      [s[..i]] + Split(s[i + 1..], sep)
  }

  /** Joining the pieces of a split gives the string back. */
  lemma {:induction false} JoinSplit(s: string, sep: char)
    ensures Join(Split(s, sep), sep) == s
    decreases |s|
  {
    if sep in s {
      var i := IndexOf(s, sep);
      assert s == s[..i] + [sep] + s[i + 1..];
      JoinSplit(s[i + 1..], sep);
    }
  }

  /** Split undoes Join when no part contains the separator. */
  lemma {:induction false} SplitJoin(parts: seq<string>, sep: char)
    requires |parts| >= 1
    requires forall i :: 0 <= i < |parts| ==> sep !in parts[i]
    ensures Split(Join(parts, sep), sep) == parts
  {
    if |parts| == 1 {
    } else {
      var rest := Join(parts[1..], sep);
      var s := parts[0] + [sep] + rest;
      assert sep in s by { assert s[|parts[0]|] == sep; }
      var i := IndexOf(s, sep);
      IndexOfAppend(parts[0], [sep] + rest, sep);
      assert i == |parts[0]|;
      assert s[..i] == parts[0];
      assert s[i + 1..] == rest;
      SplitJoin(parts[1..], sep);
    }
  }

  /** Where the first occurrence of `c` in `s + t` lies. */
  lemma {:induction false} IndexOfAppend(s: string, t: string, c: char)
    requires c in s + t
    ensures c in s ==> IndexOf(s + t, c) == IndexOf(s, c)
    ensures c !in s ==> IndexOf(s + t, c) == |s| + IndexOf(t, c)
  {
    if s == [] {
      assert s + t == t;
    } else if s[0] != c {
      assert (s + t)[1..] == s[1..] + t;
      IndexOfAppend(s[1..], t, c);
    }
  }

  /** A string that starts with a separator-free piece splits off that piece. */
  lemma SplitFirst(a: string, b: string, sep: char)
    requires sep !in a
    ensures Split(a + [sep] + b, sep) == [a] + Split(b, sep)
  {
    var u := a + [sep] + b;
    assert u == a + ([sep] + b);
    assert u[|a|] == sep;
    IndexOfAppend(a, [sep] + b, sep);
    assert u[..|a|] == a;
    assert u[|a| + 1..] == b;
  }

  /** Splitting a concatenation around a separator splits each side. */
  lemma {:induction false} SplitAppend(s: string, t: string, sep: char)
    ensures Split(s + [sep] + t, sep) == Split(s, sep) + Split(t, sep)
    decreases |s|
  {
    if sep !in s {
      SplitFirst(s, t, sep);
    } else {
      var j := IndexOf(s, sep);
      var s1, s2 := s[..j], s[j + 1..];
      assert s == s1 + [sep] + s2;
      calc {
        Split(s + [sep] + t, sep);
        { assert s + [sep] + t == s1 + [sep] + (s2 + [sep] + t);
          SplitFirst(s1, s2 + [sep] + t, sep); }
        [s1] + Split(s2 + [sep] + t, sep);
        { SplitAppend(s2, t, sep); }
        [s1] + (Split(s2, sep) + Split(t, sep));
        { SplitFirst(s1, s2, sep); }
        Split(s, sep) + Split(t, sep);
      }
    }
  }

  // ---------------------------------------------------------------------------
  // decimal integers

  function DigitChar(d: nat): char
    requires d < 10
  {
    ('0' as int + d) as char
  }

  function DigitValue(c: char): nat
    requires IsDigit(c)
  {
    c as int - '0' as int
  }

  /** The decimal digits of a natural number, most significant first, no
      leading zeros. */
  function NatToString(n: nat): (r: string)
    ensures |r| >= 1
    ensures forall i :: 0 <= i < |r| ==> IsDigit(r[i])
    ensures |r| > 1 ==> r[0] != '0'
  {
    if n < 10 then [DigitChar(n)] else NatToString(n / 10) + [DigitChar(n % 10)]
  }

  /** `${n}` for an integer n: an optional minus sign and the digits. */
  function IntToString(n: int): string {
    if n < 0 then "-" + NatToString(-n) else NatToString(n)
  }

  /** The value of a run of decimal digits. */
  function DigitsValue(d: string): nat
    requires forall i :: 0 <= i < |d| ==> IsDigit(d[i])
  {
    if d == [] then 0 else DigitsValue(d[..|d| - 1]) * 10 + DigitValue(d[|d| - 1])
  }

  /** The longest prefix of `s` made of decimal digits. */
  function LeadingDigits(s: string): (r: string)
    ensures |r| <= |s| && r == s[..|r|]
    ensures forall i :: 0 <= i < |r| ==> IsDigit(r[i])
    ensures |r| < |s| ==> !IsDigit(s[|r|])
  {
    if s != [] && IsDigit(s[0]) then [s[0]] + LeadingDigits(s[1..]) else []
  }

  /** The value of the leading digits of `r`; None (NaN) when there are none. */
  function ParseDigits(r: string): (v: Option<nat>)
    ensures v.None? <==> r == [] || !IsDigit(r[0])
  {
    var d := LeadingDigits(r);
    if d == [] then None else Some(DigitsValue(d))
  }

  /** An optional '+' or '-' and then the leading digits. */
  function ParseSigned(t: string): Option<int> {
    if t != [] && t[0] == '-' then
      match ParseDigits(t[1..])
      case Some(m) => Some(0 - m as int)
      case None => None
    else if t != [] && t[0] == '+' then
      match ParseDigits(t[1..])
      case Some(m) => Some(m)
      case None => None
    else
      match ParseDigits(t)
      case Some(m) => Some(m)
      case None => None
  }

  /** parseInt(s, 10): skip leading whitespace, read an optional '+' or '-',
      then the longest run of decimal digits; None (NaN) when that run is empty.
      Whatever follows the digits is ignored. */
  function ParseInt(s: string): (r: Option<int>)
    ensures var t := TrimStart(s);
      var u := if t != [] && (t[0] == '-' || t[0] == '+') then t[1..] else t;
      r.None? <==> u == [] || !IsDigit(u[0])
  {
    ParseSigned(TrimStart(s))
  }

  lemma {:induction false} NatToStringValue(n: nat)
    ensures DigitsValue(NatToString(n)) == n
  {
    if n >= 10 {
      var r := NatToString(n);
      assert r[..|r| - 1] == NatToString(n / 10);
      NatToStringValue(n / 10);
    }
  }

  lemma AllDigitsLeading(d: string)
    requires forall i :: 0 <= i < |d| ==> IsDigit(d[i])
    ensures LeadingDigits(d) == d
  {
  }

  /** parseInt reads back the decimal rendering of every integer. */
  lemma ParseIntToString(n: int)
    ensures ParseInt(IntToString(n)) == Some(n)
  {
    ParseIntSuffix(n, []);
    assert IntToString(n) + [] == IntToString(n);
  }

  lemma {:induction false} LeadingDigitsAppend(d: string, rest: string)
    requires forall i :: 0 <= i < |d| ==> IsDigit(d[i])
    requires rest == [] || !IsDigit(rest[0])
    ensures LeadingDigits(d + rest) == d
  {
    if d == [] {
      assert d + rest == rest;
    } else {
      assert (d + rest)[1..] == d[1..] + rest;
      LeadingDigitsAppend(d[1..], rest);
    }
  }

  /** parseInt reads the integer at the front of a string and ignores
      whatever follows it, provided that does not start with a digit. */
  lemma ParseIntSuffix(n: int, rest: string)
    requires rest == [] || !IsDigit(rest[0])
    ensures ParseInt(IntToString(n) + rest) == Some(n)
  {
    if n < 0 {
      NegativeThenRest(-n, rest);
    } else {
      NonNegativeThenRest(n, rest);
    }
  }

  lemma NegativeThenRest(m: nat, rest: string)
    requires m > 0
    requires rest == [] || !IsDigit(rest[0])
    ensures ParseInt(IntToString(0 - m as int) + rest) == Some(0 - m as int)
  {
    var d := NatToString(m);
    var s := "-" + (d + rest);
    assert IntToString(0 - m as int) + rest == s;
    TrimStartUnchanged(s);
    assert s[1..] == d + rest;
    DigitsThenRest(m, rest);
  }

  lemma NonNegativeThenRest(m: nat, rest: string)
    requires rest == [] || !IsDigit(rest[0])
    ensures ParseInt(IntToString(m) + rest) == Some(m)
  {
    var d := NatToString(m);
    var s := d + rest;
    assert IntToString(m) + rest == s;
    assert s[0] == d[0] && IsDigit(d[0]);
    TrimStartUnchanged(s);
    DigitsThenRest(m, rest);
  }

  /** The rendered digits of m followed by a non-digit parse to m. */
  lemma DigitsThenRest(m: nat, rest: string)
    requires rest == [] || !IsDigit(rest[0])
    ensures ParseDigits(NatToString(m) + rest) == Some(m)
  {
    NatToStringValue(m);
    LeadingDigitsAppend(NatToString(m), rest);
  }

  lemma TrimStartUnchanged(s: string)
    requires s != [] && !IsWhitespace(s[0])
    ensures TrimStart(s) == s
  {
  }

  /** parseInt keeps the leading digits and ignores a trailing suffix. */
  lemma ParseIntTrailing()
    ensures ParseInt("3x") == Some(3)
  {
    TrimStartUnchanged("3x");
    assert "3x" == "3" + "x";
    LeadingDigitsAppend("3", "x");
    assert DigitsValue("3") == 3 by { assert "3"[..0] == []; }
  }

  /** parseInt of no digits at all is NaN. */
  lemma ParseIntNaN()
    ensures ParseInt("") == None
    ensures ParseInt("-") == None
    ensures ParseInt("x3") == None
  {
    assert ParseDigits("") == None;
    TrimStartUnchanged("-");
    assert "-"[1..] == "";
    TrimStartUnchanged("x3");
    assert ParseDigits("x3") == None;
  }

  /** parseInt accepts a sign after leading whitespace. */
  lemma ParseIntSigned()
    ensures ParseInt(" -7") == Some(-7)
  {
    TrimStartUnchanged("-7");
    assert " -7"[1..] == "-7";
    assert TrimStart(" -7") == "-7";
    assert "-7"[1..] == "7";
    assert "7" == "7" + "";
    LeadingDigitsAppend("7", "");
    assert DigitsValue("7") == 7 by { assert "7"[..0] == []; }
  }
}
