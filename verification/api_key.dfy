/**
  Injection of the optional API key into a request URL as the query
  parameter `api_key`, together with a small reading of a URL's query
  string that states what the injection means.
 */
module ApiKey {
  import opened Wrappers
  import opened Text

  const KeyParameter: string := "api_key="

  /** The character introducing the key parameter: `?` without a query, nothing after a trailing `?`, `&` otherwise. */
  function Separator(url: string): (sep: string)
    ensures |sep| <= 1
    ensures sep == "?" <==> SplitQuery(url).1.None?
    ensures sep == "" <==> SplitQuery(url).1.Some? && url[|url| - 1] == '?'
    ensures sep == "&" <==> SplitQuery(url).1.Some? && url[|url| - 1] != '?'
    ensures sep == "&" ==> SplitQuery(url).1.value != []
  {
    if '?' in url then
      if url[|url| - 1] == '?' then "" else "&"
    else "?"
  }

  lemma AppendFacts(url: string, sep: string, p: string)
    ensures var r := url + sep + p;
            && url <= r
            && |r| == |url| + |sep| + |p|
            && r[|r| - |p|..] == p
            && r[|url|..|r| - |p|] == sep
            && ('?' in url || '?' in sep ==> '?' in r)
  {
    var r := url + sep + p;
    assert r[..|url|] == url;
    assert r[|url|..|url| + |sep|] == sep;
  }

  /**
    Appends `api_key=<key>` to `url`, introduced by `?` when the URL has no
    query yet, by nothing when it already ends with `?`, and by `&` otherwise.
    Without a key the URL is returned unchanged.
   */
  function AddApiKey(apiKey: Option<string>, url: string): (r: string)
    ensures apiKey.None? ==> r == url
    ensures url <= r
    ensures apiKey.Some? ==>
              var p := KeyParameter + apiKey.value;
              && |url| + |p| <= |r| <= |url| + 1 + |p|
              && r[|r| - |p|..] == p
              && r[|url|..|r| - |p|] == Separator(url)
              && '?' in r
  {
    match apiKey
    case None => url
    case Some(key) =>
      var sep := Separator(url);
      AppendFacts(url, sep, KeyParameter + key);
      url + sep + (KeyParameter + key)
  }

  /**
    Splits a URL at its first `?` into what precedes it and the query after it
    (None without a `?`). A `#` fragment is not recognised: it stays part of
    whichever side it is on.
   */
  function SplitQuery(url: string): (r: (string, Option<string>))
    ensures '?' !in r.0
    ensures r.1.None? <==> '?' !in url
    ensures r.1.None? ==> r.0 == url
    ensures r.1.Some? ==> url == r.0 + "?" + r.1.value
  {
    if url == [] then ([], None)
    else if url[0] == '?' then ([], Some(url[1..]))
    else
      var rest := SplitQuery(url[1..]);
      assert url == [url[0]] + url[1..];
      ([url[0]] + rest.0, rest.1)
  }

  /** Joins parameters with `&`. */
  function JoinParams(ps: seq<string>): string
  {
    if |ps| == 0 then []
    else if |ps| == 1 then ps[0]
    else ps[0] + "&" + JoinParams(ps[1..])
  }

  lemma {:induction false} JoinParamsCons(c: char, ps: seq<string>)
    requires |ps| >= 1
    ensures JoinParams([[c] + ps[0]] + ps[1..]) == [c] + JoinParams(ps)
  {
    var qs := [[c] + ps[0]] + ps[1..];
    assert qs[0] == [c] + ps[0];
    assert qs[1..] == ps[1..];
    if |ps| > 1 {
      var rest := "&" + JoinParams(ps[1..]);
      assert JoinParams(qs) == ([c] + ps[0]) + rest;
      assert JoinParams(ps) == ps[0] + rest;
      assert ([c] + ps[0]) + rest == [c] + (ps[0] + rest);
    }
  }

  /** Splits a query string at every `&`. */
  function SplitParams(q: string): (r: seq<string>)
    ensures |r| == Count(q, '&') + 1
  {
    if q == [] then [[]]
    else
      var rest := SplitParams(q[1..]);
      if q[0] == '&' then [[]] + rest
      else [[q[0]] + rest[0]] + rest[1..]
  }

  /** Splitting yields pieces free of `&` that join back to the query. */
  lemma {:induction false} SplitParamsJoin(q: string)
    ensures forall i :: 0 <= i < |SplitParams(q)| ==> '&' !in SplitParams(q)[i]
    ensures JoinParams(SplitParams(q)) == q
  {
    if q != [] {
      var rest := SplitParams(q[1..]);
      SplitParamsJoin(q[1..]);
      assert q == [q[0]] + q[1..];
      if q[0] != '&' {
        JoinParamsCons(q[0], rest);
        assert '&' !in [q[0]] + rest[0];
      }
    }
  }

  /** The parameters of a URL's query: none without a query or with an empty one. */
  function QueryParams(url: string): seq<string>
  {
    match SplitQuery(url).1
    case None => []
    case Some(q) => if q == [] then [] else SplitParams(q)
  }

  /** The query of `url` is absent, empty, or does not end with `?`. */
  predicate QueryEndsCleanly(url: string)
  {
    match SplitQuery(url).1
    case None => true
    case Some(q) => q == [] || q[|q| - 1] != '?'
  }

  lemma {:induction false} SplitQueryAppend(url: string, s: string)
    requires '?' in url
    ensures SplitQuery(url + s) == (SplitQuery(url).0, Some(SplitQuery(url).1.value + s))
  {
    assert (url + s)[0] == url[0];
    if url[0] != '?' {
      assert '?' in url[1..] by {
        var j :| 0 <= j < |url| && url[j] == '?';
        assert url[1..][j - 1] == '?';
      }
      assert (url + s)[1..] == url[1..] + s;
      SplitQueryAppend(url[1..], s);
    } else {
      assert (url + s)[1..] == url[1..] + s;
    }
  }

  lemma {:induction false} SplitQueryFresh(url: string, s: string)
    requires '?' !in url
    ensures SplitQuery(url + "?" + s) == (url, Some(s))
  {
    var w := url + "?" + s;
    if url == [] {
      assert w == "?" + s;
      assert w[1..] == s;
    } else {
      assert w[0] == url[0];
      assert w[1..] == url[1..] + "?" + s;
      assert '?' !in url[1..] by {
        assert forall j :: 0 <= j < |url[1..]| ==> url[1..][j] == url[j + 1];
      }
      SplitQueryFresh(url[1..], s);
      assert url == [url[0]] + url[1..];
    }
  }

  lemma SplitParamsConsPlain(c: char, w: string)
    requires c != '&'
    ensures var rest := SplitParams(w);
            SplitParams([c] + w) == [[c] + rest[0]] + rest[1..]
  {
    assert ([c] + w)[1..] == w;
  }

  lemma SplitParamsConsAmp(w: string)
    ensures SplitParams("&" + w) == [[]] + SplitParams(w)
  {
    assert ("&" + w)[1..] == w;
  }

  /** Prefixing the first piece of a concatenation only touches its left part. */
  lemma ConsFirstAppend(c: char, x: seq<string>, y: seq<string>)
    requires |x| >= 1
    ensures [[c] + (x + y)[0]] + (x + y)[1..] == ([[c] + x[0]] + x[1..]) + y
  {
    assert (x + y)[1..] == x[1..] + y;
  }

  lemma SplitParamsAppendPlain(c: char, a: string, b: string)
    requires c != '&'
    requires SplitParams(a + "&" + b) == SplitParams(a) + SplitParams(b)
    ensures SplitParams([c] + a + "&" + b) == SplitParams([c] + a) + SplitParams(b)
  {
    var w := a + "&" + b;
    assert [c] + a + "&" + b == [c] + w;
    SplitParamsConsPlain(c, w);
    SplitParamsConsPlain(c, a);
    ConsFirstAppend(c, SplitParams(a), SplitParams(b));
  }

  lemma SplitParamsAppendAmp(a: string, b: string)
    requires SplitParams(a + "&" + b) == SplitParams(a) + SplitParams(b)
    ensures SplitParams("&" + a + "&" + b) == SplitParams("&" + a) + SplitParams(b)
  {
    var w := a + "&" + b;
    assert "&" + a + "&" + b == "&" + w;
    SplitParamsConsAmp(w);
    SplitParamsConsAmp(a);
  }

  lemma {:induction false} SplitParamsAppend(a: string, b: string)
    ensures SplitParams(a + "&" + b) == SplitParams(a) + SplitParams(b)
  {
    if a == [] {
      assert a + "&" + b == "&" + b;
      SplitParamsConsAmp(b);
    } else {
      SplitParamsAppend(a[1..], b);
      assert a == [a[0]] + a[1..];
      if a[0] == '&' {
        SplitParamsAppendAmp(a[1..], b);
      } else {
        SplitParamsAppendPlain(a[0], a[1..], b);
      }
    }
  }

  lemma SplitParamsSingle(p: string)
    requires '&' !in p
    ensures SplitParams(p) == [p]
  {
    CountZero(p, '&');
    SplitParamsJoin(p);
  }

  lemma KeyParameterFree(key: string)
    requires '&' !in key
    ensures '&' !in KeyParameter + key
  {
    CountAppend(KeyParameter, key, '&');
    CountZero(key, '&');
    CountZero(KeyParameter, '&');
    CountZero(KeyParameter + key, '&');
  }

  lemma AppendsParameterWithoutQuery(p: string, url: string)
    requires '&' !in p && p != []
    requires '?' !in url && '#' !in url
    ensures SplitQuery(url + "?" + p).0 == SplitQuery(url).0
    ensures QueryParams(url + "?" + p) == QueryParams(url) + [p]
  {
    SplitQueryFresh(url, p);
    SplitParamsSingle(p);
  }

  lemma AppendsParameterAfterMark(p: string, url: string)
    requires '&' !in p && p != []
    requires '?' in url && url[|url| - 1] == '?'
    requires QueryEndsCleanly(url)
    ensures SplitQuery(url + p).0 == SplitQuery(url).0
    ensures QueryParams(url + p) == QueryParams(url) + [p]
  {
    SplitQueryAppend(url, p);
    var q := SplitQuery(url).1.value;
    assert q == [];
    assert q + p == p;
    SplitParamsSingle(p);
  }

  lemma AppendsParameterAfterQuery(p: string, url: string)
    requires '&' !in p && p != []
    requires '?' in url && url[|url| - 1] != '?'
    ensures SplitQuery(url + "&" + p).0 == SplitQuery(url).0
    ensures QueryParams(url + "&" + p) == QueryParams(url) + [p]
  {
    assert url + "&" + p == url + ("&" + p);
    SplitQueryAppend(url, "&" + p);
    var q := SplitQuery(url).1.value;
    assert q != [];
    assert q + ("&" + p) == q + "&" + p;
    SplitParamsAppend(q, p);
    SplitParamsSingle(p);
  }

  /**
    With a key free of `&` and `#`, and a URL without a `#` fragment whose
    query does not end in a stray `?`, adding the key keeps everything before
    the query and appends exactly one parameter, `api_key=<key>`, after the
    URL's existing parameters.
   */
  lemma AddApiKeyAppendsParameter(key: string, url: string)
    requires '&' !in key && '#' !in key
    requires '#' !in url
    requires QueryEndsCleanly(url)
    ensures SplitQuery(AddApiKey(Some(key), url)).0 == SplitQuery(url).0
    ensures QueryParams(AddApiKey(Some(key), url)) == QueryParams(url) + [KeyParameter + key]
  {
    var p := KeyParameter + key;
    KeyParameterFree(key);
    if '?' !in url {
      AppendsParameterWithoutQuery(p, url);
    } else if url[|url| - 1] == '?' {
      assert url + "" + p == url + p;
      AppendsParameterAfterMark(p, url);
    } else {
      AppendsParameterAfterQuery(p, url);
    }
  }
}
