/**
 * The upstream address `proxy_api` builds for the data origin: the fixed base
 * `https://api.bgsi.gg`, the literal `/api/`, the caller's path as received, and
 * `?` with the serialised query string only when that string is non-empty (the
 * query component of a URI, section 3.4 of RFC 3986).
 */
module Upstream {
  import opened Text

  const ApiBase: string := "https://api.bgsi.gg"

  /** Everything in front of the forwarded path. */
  const ApiRoot: string := ApiBase + "/api/"

  /** The upstream URL for a path and an already serialised query string. */
  function TargetUrl(path: string, query: string): (url: string)
    ensures OccursAt(url, 0, ApiBase + "/api/")
    ensures OccursAt(url, |ApiRoot|, path)
    ensures query == "" <==> |url| == |ApiRoot| + |path|
    ensures query != "" ==> url[|ApiRoot| + |path|..] == "?" + query
  {
    if query == "" then ApiRoot + path else ApiRoot + path + "?" + query
  }

  lemma NoQuestionMarkInRoot()
    ensures Count('?', ApiRoot) == 0
  {
    assert '?' !in ApiBase;
    assert '?' !in "/api/";
    assert '?' !in ApiBase + "/api/";
  }

  /**
   * The URL holds the path's own `?` characters and, only when the query is
   * non-empty, one more separator followed by the query's.
   */
  lemma QuestionMarksInTargetUrl(path: string, query: string)
    ensures Count('?', TargetUrl(path, query))
         == Count('?', path) + (if query == "" then 0 else 1 + Count('?', query))
  {
    var head := ApiRoot + path;
    NoQuestionMarkInRoot();
    CountAppend('?', ApiRoot, path);
    if query != "" {
      var tail := "?" + query;
      CountAppend('?', head, tail);
      assert tail[1..] == query;
      assert Count('?', tail) == 1 + Count('?', query);
      assert TargetUrl(path, query) == head + tail;
    } else {
      assert TargetUrl(path, query) == head;
    }
  }

  /**
   * Builds the URL the way the handler does: the base, `/api/` and the path
   * first, then a conditional in-place append of `?` and the query.
   */
  method BuildTargetUrl(path: string, query: string) returns (targetUrl: string)
    ensures targetUrl == TargetUrl(path, query)
  {
    targetUrl := ApiBase + "/api/" + path;
    if query != "" {
      targetUrl := targetUrl + "?" + query;
    }
  }

  /**
   * The part of a URL tail that is sent to the server: everything before the
   * first `#`, which opens the fragment (section 3.5 of RFC 3986).
   */
  function StripFragment(s: string): (t: string)
    ensures '#' !in t
    ensures |t| <= |s| && t == s[..|t|]
    ensures |t| < |s| ==> s[|t|] == '#'
    ensures '#' !in s ==> t == s
  {
    s[..FindChar(s, '#')]
  }

  /**
   * Splits the sent part of a URL tail into path and query: the query starts
   * after the first `?` (section 3.4 of RFC 3986) and is empty when there is none.
   */
  function SplitQuery(sent: string): (parts: (string, string))
    ensures '?' !in parts.0
    ensures '?' in sent ==> sent == parts.0 + "?" + parts.1
    ensures '?' !in sent ==> sent == parts.0 && parts.1 == ""
  {
    var k := FindChar(sent, '?');
    if k == |sent| then
      assert sent[..k] == sent;
      (sent, "")
    else
      assert sent == sent[..k] + "?" + sent[k + 1..];
      (sent[..k], sent[k + 1..])
  }

  /**
   * How an upstream server reads the path and query back out of a URL that
   * starts with `root`: the fragment from the first `#` on is not sent, and
   * the query starts after the first `?` of what is left.
   */
  function SplitUnder(root: string, url: string): (parts: Option<(string, string)>)
    ensures parts.Some? <==> OccursAt(url, 0, root)
    ensures parts.Some? ==> '?' !in parts.value.0
    ensures parts.Some? ==> '#' !in parts.value.0 && '#' !in parts.value.1
    ensures parts.Some? && '#' !in url[|root|..] && '?' in url[|root|..] ==>
              url == root + parts.value.0 + "?" + parts.value.1
    ensures parts.Some? && '#' !in url[|root|..] && '?' !in url[|root|..] ==>
              url == root + parts.value.0 && parts.value.1 == ""
  {
    if !OccursAt(url, 0, root) then None
    else
      var rest := url[|root|..];
      assert url == root + rest by { assert url[..|root|] == root; }
      var sent := StripFragment(rest);
      var parts := SplitQuery(sent);
      assert '#' !in parts.1 by {
        if '?' in sent {
          assert parts.1 == sent[|parts.0| + 1..];
        }
      }
      Some(parts)
  }

  function SplitTarget(url: string): Option<(string, string)>
  {
    SplitUnder(ApiRoot, url)
  }

  /**
   * A path without `?` or `#`, and a query without `#`, are recovered exactly
   * from the upstream URL.
   */
  lemma {:induction false} TargetUrlRoundTrip(path: string, query: string)
    requires '?' !in path && '#' !in path && '#' !in query
    ensures SplitTarget(TargetUrl(path, query)) == Some((path, query))
  {
    var url := TargetUrl(path, query);
    var rest := url[|ApiRoot|..];
    if query == "" {
      assert rest == path;
    } else {
      assert rest == path + "?" + query;
      assert '#' !in rest;
      assert rest[..|path|] == path;
      FindCharAt(rest, '?', |path|);
    }
  }

  /** What the upstream reads from a URL under the root is decided by the tail alone. */
  lemma SplitTargetTail(url: string)
    requires OccursAt(url, 0, ApiRoot)
    ensures SplitTarget(url) == Some(SplitQuery(StripFragment(url[|ApiRoot|..])))
  {
  }

  lemma SplitQueryAt(sent: string, k: nat)
    requires k < |sent| && sent[k] == '?' && '?' !in sent[..k]
    ensures SplitQuery(sent) == (sent[..k], sent[k + 1..])
  {
    FindCharAt(sent, '?', k);
  }

  /** A `?` in the front part of a fragment-free tail ends the path there. */
  lemma FirstQuestionMarkSplits(path: string, tail: string)
    requires '?' in path && '#' !in path + tail
    ensures var k := FindChar(path, '?');
            SplitQuery(StripFragment(path + tail)) == (path[..k], path[k + 1..] + tail)
  {
    var k := FindChar(path, '?');
    var rest := path + tail;
    assert rest[..k] == path[..k];
    assert rest[k + 1..] == path[k + 1..] + tail;
    SplitQueryAt(rest, k);
  }

  /**
   * The path is forwarded verbatim, so a `?` inside it (a percent-encoded
   * `%3F` the framework has already decoded) starts the upstream query: the
   * upstream sees the path only up to that `?`, and the rest of the path in
   * front of the query that was sent.
   */
  lemma {:induction false} PathQuestionMarkBecomesQuery(path: string, query: string)
    requires '?' in path && '#' !in path && '#' !in query
    ensures var k := FindChar(path, '?');
            SplitTarget(TargetUrl(path, query))
            == Some((path[..k], path[k + 1..] + (if query == "" then "" else "?" + query)))
  {
    var tail := if query == "" then "" else "?" + query;
    var url := TargetUrl(path, query);
    assert url[|ApiRoot|..] == path + tail;
    SplitTargetTail(url);
    FirstQuestionMarkSplits(path, tail);
  }

  /** So path `a?b` with no query and path `a` with query `b` reach the same URL. */
  lemma QuestionMarkPathsCollide()
    ensures TargetUrl("a?b", "") == TargetUrl("a", "b")
  {
  }

  /** A `#` in the front part of a tail cuts off everything from it on. */
  lemma FirstHashCuts(path: string, tail: string)
    requires '#' in path && '?' !in path[..FindChar(path, '#')]
    ensures SplitQuery(StripFragment(path + tail)) == (path[..FindChar(path, '#')], "")
  {
    var f := FindChar(path, '#');
    var rest := path + tail;
    assert rest[..f] == path[..f];
    FindCharAt(rest, '#', f);
  }

  /**
   * A `#` inside the path (a decoded `%23`) opens the fragment: the upstream
   * sees the path only up to it and no query at all, whatever query was sent.
   */
  lemma {:induction false} PathHashDropsRest(path: string, query: string)
    requires '#' in path && '?' !in path[..FindChar(path, '#')]
    ensures var f := FindChar(path, '#');
            SplitTarget(TargetUrl(path, query)) == Some((path[..f], ""))
  {
    var tail := if query == "" then "" else "?" + query;
    var url := TargetUrl(path, query);
    assert url[|ApiRoot|..] == path + tail;
    SplitTargetTail(url);
    FirstHashCuts(path, tail);
  }
}
