/**
 * How a receiver reads the `key=value` pairs of a URL's query string, in the
 * way `URLSearchParams.get` (client) and `req.query` (server) read the URLs
 * the pages build: the text after the first '?', split on '&', the first pair
 * whose key matches.  Percent-decoding is not part of this model.
 */
module UrlQuery {
  import opened Wrappers
  import opened JsString

  predicate StartsWith(s: string, p: string) {
    |p| <= |s| && s[..|p|] == p
  }

  /** The part of a URL after its first '?' ("" when there is none). */
  function QueryString(url: string): (q: string)
    ensures |q| <= |url|
    ensures '?' !in url ==> q == ""
  {
    if '?' in url then url[IndexOf(url, '?') + 1..] else ""
  }

  /** The value of the first pair `key=value` in the list. */
  function PairValue(pairs: seq<string>, key: string): (r: Option<string>)
    ensures r.Some? ==> exists i :: 0 <= i < |pairs| && pairs[i] == key + "=" + r.value
  {
    if pairs == [] then None
    else if StartsWith(pairs[0], key + "=") then
      assert pairs[0] == key + "=" + pairs[0][|key| + 1..];
      Some(pairs[0][|key| + 1..])
    else PairValue(pairs[1..], key)
  }

  /** The value of query parameter `key` in `url`, if present. */
  function QueryParam(url: string, key: string): Option<string> {
    PairValue(Split(QueryString(url), '&'), key)
  }

  /** The query string of `path?q` is `q` when the path has no '?'. */
  lemma QueryOf(path: string, q: string)
    requires '?' !in path
    ensures QueryString(path + "?" + q) == q
  {
    var url := path + "?" + q;
    assert url == path + ("?" + q);
    assert url[|path|] == '?';
    IndexOfAppend(path, "?" + q, '?');
    assert url[|path| + 1..] == q;
  }

  /** A pair with another '='-free key never answers for `key`. */
  lemma OtherKey(k: string, v: string, key: string)
    requires '=' !in k && '=' !in key && k != key
    ensures !StartsWith(k + "=" + v, key + "=")
  {
    var s, p := k + "=" + v, key + "=";
    var j: nat;
    if |k| < |key| {
      j := |k|;
      assert s[j] == '=' && p[j] == key[j];
    } else if |key| < |k| {
      j := |key|;
      assert s[j] == k[j] && p[j] == '=';
    } else {
      j :| 0 <= j < |k| && k[j] != key[j];
      assert s[j] == k[j] && p[j] == key[j];
    }
    assert j < |p| && j < |s| && s[j] != p[j];
  }

  /** A one-parameter query: its key is found, every other key is absent. */
  lemma OneParam(path: string, key: string, v: string, other: string)
    requires '?' !in path && '&' !in key && '&' !in v && '=' !in key
    requires '=' !in other && other != key
    ensures QueryParam(path + "?" + key + "=" + v, key) == Some(v)
    ensures QueryParam(path + "?" + key + "=" + v, other) == None
  {
    var p := key + "=" + v;
    assert path + "?" + key + "=" + v == path + "?" + p;
    QueryOf(path, p);
    assert '&' !in p;
    assert Split(p, '&') == [p];
    assert StartsWith(p, key + "=");
    OtherKey(key, v, other);
  }

  /** A list starting with `key=v` answers `v` for `key`. */
  lemma PairFirst(key: string, v: string, rest: seq<string>)
    ensures PairValue([key + "=" + v] + rest, key) == Some(v)
  {
    var p := key + "=" + v;
    assert StartsWith(p, key + "=");
    assert p[|key| + 1..] == v;
  }

  /** Two pairs with distinct keys each answer for their own key. */
  lemma TwoPairs(k1: string, v1: string, k2: string, v2: string)
    requires '=' !in k1 && '=' !in k2 && k1 != k2
    ensures PairValue([k1 + "=" + v1, k2 + "=" + v2], k1) == Some(v1)
    ensures PairValue([k1 + "=" + v1, k2 + "=" + v2], k2) == Some(v2)
  {
    var p1, p2 := k1 + "=" + v1, k2 + "=" + v2;
    PairFirst(k1, v1, [p2]);
    assert [p1] + [p2] == [p1, p2];
    OtherKey(k1, v1, k2);
    assert [p1, p2][1..] == [p2];
    PairFirst(k2, v2, []);
    assert [p2] + [] == [p2];
  }

  /** The pairs of `p1&p2` when neither contains '&'. */
  lemma SplitTwo(p1: string, p2: string)
    requires '&' !in p1 && '&' !in p2
    ensures Split(p1 + "&" + p2, '&') == [p1, p2]
  {
    SplitAppend(p1, p2, '&');
  }

  /** A two-parameter query: each of its two keys is found. */
  lemma TwoParams(path: string, k1: string, v1: string, k2: string, v2: string)
    requires '?' !in path && '&' !in k1 && '&' !in v1 && '&' !in k2 && '&' !in v2
    requires '=' !in k1 && '=' !in k2 && k1 != k2
    ensures QueryParam(path + "?" + k1 + "=" + v1 + "&" + k2 + "=" + v2, k1) == Some(v1)
    ensures QueryParam(path + "?" + k1 + "=" + v1 + "&" + k2 + "=" + v2, k2) == Some(v2)
  {
    var p1, p2 := k1 + "=" + v1, k2 + "=" + v2;
    var q := p1 + "&" + p2;
    assert path + "?" + k1 + "=" + v1 + "&" + k2 + "=" + v2 == path + "?" + q;
    QueryOf(path, q);
    SplitTwo(p1, p2);
    TwoPairs(k1, v1, k2, v2);
  }
}
