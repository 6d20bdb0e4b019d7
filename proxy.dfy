/**
 * The `/api/{path}` handler: build the upstream URL, fetch and decode the
 * JSON, and answer either with the template page holding the escaped,
 * pretty-printed JSON (status 200) or with a short error fragment (status 500).
 *
 * The exchange with the upstream (GET, status check, JSON decoding) is a
 * parameter `fetch` from the target URL to an `Outcome`; the pretty-printer
 * `json.dumps(..., indent=2)` is a parameter `dumps` over an abstract JSON
 * value type `J`.
 */
module Proxy {
  import opened Text
  import Upstream
  import Escaping
  import PageTemplate

  /** The decoded JSON body, or the text `str(e)` of the exception that ended the exchange. */
  datatype Outcome<J> = Fetched(data: J) | Failed(message: string)

  datatype Response = Response(status: int, body: string)

  /** The error fragment around the exception text. */
  const ErrorOpen: string := "<h1 style='color:red;'>Error fetching API:</h1><pre>"
  const ErrorClose: string := "</pre>"

  /**
   * `html_escape_json`: pretty-print, then HTML-escape. The result holds no
   * raw markup character and decodes back to exactly the printed JSON.
   */
  function HtmlEscapeJson<J>(data: J, dumps: J -> string): (text: string)
    ensures Escaping.WellEscaped(text)
    ensures Escaping.Unescape(text) == dumps(data)
    ensures |text| == |dumps(data)| + Escaping.Growth(dumps(data))
  {
    Escaping.EscapeIsWellEscaped(dumps(data));
    Escaping.UnescapeEscape(dumps(data));
    Escaping.EscapeLength(dumps(data));
    Escaping.Escape(dumps(data))
  }

  /**
   * The handler's answer to one outcome: exactly one of the 200 page and the
   * 500 error fragment. The page is the template around the escaped JSON; the
   * fragment carries the exception text as it is, unescaped.
   */
  function Respond<J>(outcome: Outcome<J>, dumps: J -> string): (r: Response)
    ensures r.status == 200 <==> outcome.Fetched?
    ensures r.status == 500 <==> outcome.Failed?
    ensures outcome.Fetched? ==>
              r.body == PageTemplate.Prefix + HtmlEscapeJson(outcome.data, dumps) + PageTemplate.Suffix
    ensures outcome.Failed? ==> r.body == ErrorOpen + outcome.message + ErrorClose
  {
    match outcome
    case Failed(message) => Response(500, ErrorOpen + message + ErrorClose)
    case Fetched(data) => Response(200, PageTemplate.RenderPage(HtmlEscapeJson(data, dumps)).text)
  }

  /**
   * `proxy_api`: the URL is built first, the upstream is asked once with it,
   * and its outcome decides the answer.
   */
  method ProxyApi<J>(path: string, query: string, fetch: string -> Outcome<J>, dumps: J -> string)
    returns (targetUrl: string, response: Response)
    ensures targetUrl == Upstream.TargetUrl(path, query)
    ensures response.status == 200 ==> fetch(targetUrl).Fetched?
    ensures response == Respond(fetch(targetUrl), dumps)
  {
    targetUrl := Upstream.BuildTargetUrl(path, query);
    var outcome := fetch(targetUrl);
    response := Respond(outcome, dumps);
  }

  // ---------------------------------------------------------------------------
  // Reading a success page back.

  /** What a reader of a 200 page recovers: the text between the template parts, decoded. */
  function ExtractJsonText(body: string): (json: Option<string>)
    ensures json.Some? ==> |body| >= |PageTemplate.Prefix| + |PageTemplate.Suffix|
  {
    var p, s := PageTemplate.Prefix, PageTemplate.Suffix;
    if |body| >= |p| + |s| && body[..|p|] == p && body[|body| - |s|..] == s
    then Some(Escaping.Unescape(body[|p|..|body| - |s|]))
    else None
  }

  /** The success page gives back exactly the pretty-printed JSON it was made from. */
  lemma SuccessPageRoundTrip<J>(data: J, dumps: J -> string)
    ensures ExtractJsonText(Respond(Fetched(data), dumps).body) == Some(dumps(data))
  {
    var p, s := PageTemplate.Prefix, PageTemplate.Suffix;
    var text := HtmlEscapeJson(data, dumps);
    var body := Respond(Fetched(data), dumps).body;
    assert body == p + text + s;
    assert body[..|p|] == p;
    assert body[|body| - |s|..] == s;
    assert body[|p|..|body| - |s|] == text;
  }

  /** Different printed JSON, or different exception texts, never give the same answer. */
  lemma RespondInjective<J>(a: Outcome<J>, b: Outcome<J>, dumps: J -> string)
    requires Respond(a, dumps) == Respond(b, dumps)
    ensures a.Fetched? <==> b.Fetched?
    ensures a.Fetched? ==> dumps(a.data) == dumps(b.data)
    ensures a.Failed? ==> a.message == b.message
  {
    if a.Fetched? {
      SuccessPageRoundTrip(a.data, dumps);
      SuccessPageRoundTrip(b.data, dumps);
    } else {
      var body := Respond(a, dumps).body;
      assert a.message == body[|ErrorOpen|..|body| - |ErrorClose|];
      assert b.message == body[|ErrorOpen|..|body| - |ErrorClose|];
    }
  }

  // ---------------------------------------------------------------------------
  // Markup in the answer.

  /**
   * The 200 page holds exactly the template's own `<` and `>`: the JSON adds
   * none, whatever the upstream sent.
   */
  lemma SuccessPageAddsNoMarkup<J>(data: J, dumps: J -> string)
    ensures Count('<', Respond(Fetched(data), dumps).body)
         == Count('<', PageTemplate.Prefix) + Count('<', PageTemplate.Suffix)
    ensures Count('>', Respond(Fetched(data), dumps).body)
         == Count('>', PageTemplate.Prefix) + Count('>', PageTemplate.Suffix)
  {
    var p, s := PageTemplate.Prefix, PageTemplate.Suffix;
    var text := HtmlEscapeJson(data, dumps);
    assert '<' !in text && '>' !in text by {
      forall i | 0 <= i < |text| ensures text[i] != '<' && text[i] != '>' {
      }
    }
    CountAppend('<', p, text);
    CountAppend('<', p + text, s);
    CountAppend('>', p, text);
    CountAppend('>', p + text, s);
  }

  /**
   * The 500 fragment carries every `<` of the exception text on top of its
   * own: the message is embedded without escaping.
   */
  lemma ErrorFragmentKeepsMarkup<J>(message: string, dumps: J -> string)
    ensures Count('<', Respond(Failed(message), dumps).body)
         == Count('<', ErrorOpen) + Count('<', message) + Count('<', ErrorClose)
    ensures OccursAt(Respond(Failed(message), dumps).body, |ErrorOpen|, message)
  {
    CountAppend('<', ErrorOpen, message);
    CountAppend('<', ErrorOpen + message, ErrorClose);
    var body := Respond(Failed(message), dumps).body;
    assert body[|ErrorOpen|..|ErrorOpen| + |message|] == message;
  }
}
