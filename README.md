# bgsi API proxy — a Dafny model of its text handling

The repository is a small FastAPI service (`main.py`) with one route, `/api/{path}`.
The route forwards the request to `https://api.bgsi.gg/api/{path}`, with the query string
when there is one. It pretty-prints the JSON the upstream returns, HTML-escapes it, and
puts it inside a fixed HTML page. If any step of the upstream exchange raises, the route
answers with a short red error fragment and status 500.

This project models the deterministic part of that route and proves properties of it:

- `Upstream` (`upstream.dfy`): building the upstream URL. There is a pure definition
  and a method that appends `?query` in place, as the handler does. `SplitTarget` reads
  a path and a query back out of a URL, so the URL can be checked by a round trip.
- `Escaping` (`escaping.dfy`): `html.escape` with its default `quote=True`. It is
  modelled as the library's chain of replacements, ampersand first, and proved equal to
  a per-character escape. `Unescape` decodes the five entities. The module proves both
  round trips and the character-class, length and order properties.
- `PageTemplate` (`template.dfy`): the `HTML_TEMPLATE` text and `string.Template.substitute`.
  The model covers `$$`, `$name`, `${name}`, the unknown-name error and the
  invalid-placeholder error. It proves that filling the page never fails and changes
  nothing but the placeholder.
- `Proxy` (`proxy.dfy`): `html_escape_json`, the choice between the 200 page and the
  500 fragment, and the handler as a method.
- `Text` (`text.dfy`): counting and searching helpers on strings.

The network exchange is modelled as a parameter `fetch` that maps the target URL to an
`Outcome`: either `Fetched(data)` or `Failed(message)`. The exchange covers the GET,
`raise_for_status` and `.json()`; `message` stands for `str(e)`. `json.dumps(..., indent=2)`
is a parameter `dumps` over an abstract JSON value type.

Every failure of the upstream exchange becomes the same status-500 fragment; the code has
no other error status. The exception text `str(e)` is inserted into that fragment
unescaped, which `Proxy.ErrorFragmentKeepsMarkup` states as it is. `json.dumps` is called
without `sort_keys`, so the model claims nothing about key order.

## Model

| member | source | states |
|---|---|---|
| `Upstream.TargetUrl` | main.py:33-40 | The URL starts with `https://api.bgsi.gg/api/`, followed by the path verbatim. It is exactly that long when the query is empty; otherwise `?` and the query follow. |
| `Upstream.BuildTargetUrl` | main.py:37-40 | The step-by-step build with the conditional in-place append gives the same URL as `TargetUrl`. |
| `Upstream.QuestionMarksInTargetUrl` | main.py:38-40 | The URL has the path's own `?` characters. It has one more `?` plus the query's only when the query is non-empty. |
| `Upstream.TargetUrlRoundTrip` | main.py:37-40 | For a path without `?` or `#` and a query without `#`, reading the URL back (path up to the first `?`, fragment from the first `#` dropped) gives exactly the path and the query. |
| `Upstream.PathQuestionMarkBecomesQuery` | main.py:38-40 | For every path holding a `?` (and no `#`), the `?` is not re-encoded: the upstream reads the path only up to its first `?`, and the rest of the path, then `?` and the sent query, as the query. |
| `Upstream.QuestionMarkPathsCollide` | main.py:38-40 | Consequently path `a?b` with no query and path `a` with query `b` reach the same URL. |
| `Upstream.PathHashDropsRest` | main.py:38-40 | For every path holding a `#` with no `?` before it, the upstream reads the path only up to the `#` and no query at all, whatever query was sent. |
| `Escaping.EscapeMatchesPerChar` | main.py:63 | The chain of five replacements, `&` first, escapes each character on its own. No entity is escaped twice. |
| `Escaping.EscapeIsWellEscaped` | main.py:63 | The escaped text has no raw `<`, `>`, `"` or `'`. Every `&` in it starts `&amp;`, `&lt;`, `&gt;`, `&quot;` or `&#x27;`. |
| `Escaping.UnescapeEscape` | main.py:62-63 | Decoding the five entities in the escaped text gives back exactly the input, here the `json.dumps` text. |
| `Escaping.EscapeUnescape` | main.py:63 | Every well-escaped text is the escape of its own decoding. So the escaped texts are exactly the well-escaped ones. |
| `Escaping.EscapeInjective` | main.py:63 | Different inputs have different escapes. |
| `Escaping.EscapeLength` | main.py:63 | The output is never shorter than the input. It is longer by exactly 4 per `&`, 3 per `<` or `>`, and 5 per `"` or `'`. |
| `Escaping.EscapeIdentity` | main.py:63 | Escaping leaves a text unchanged if and only if the text has none of the five special characters. |
| `Escaping.EscapePlacement` | main.py:63 | Each input character appears as its escape at its own offset, and offsets strictly increase. Characters other than the five are copied unchanged and in order. |
| `PageTemplate.TemplateHasOnePlaceholder` | main.py:10-31 | The template is the prefix, `$json` and the suffix. Its only `$` is the placeholder's. |
| `PageTemplate.SubstituteOnePlaceholder` | main.py:57 | Substituting into `$`-free text around one `$json` puts the value in the placeholder's place and nothing else. The value is not rescanned. |
| `PageTemplate.RenderPage` | main.py:57 | Filling `HTML_TEMPLATE` never fails. For every value the result is the prefix, then the value as given, then the suffix. |
| `Proxy.HtmlEscapeJson` | main.py:59-63 | The escaped JSON is well escaped and decodes back to the `json.dumps` text. Its length is that text's length plus the escape growth. |
| `Proxy.Respond` | main.py:49-57 | Exactly one answer per outcome: status 200 if and only if the fetch succeeded, and 500 if and only if it failed. The 200 body is the prefix, the escaped JSON and the suffix. The 500 body is the fixed fragment around the exception text. |
| `Proxy.ProxyApi` | main.py:36-57 | The handler sends the URL `TargetUrl` to the upstream and answers with `Respond` on its outcome. A 200 answer means the fetch succeeded. |
| `Proxy.SuccessPageRoundTrip` | main.py:57-63 | Stripping the template from a 200 page and decoding the rest gives exactly the `json.dumps` text. |
| `Proxy.RespondInjective` | main.py:49-57 | Two outcomes with the same answer are of the same kind. They have the same printed JSON or the same exception text. |
| `Proxy.SuccessPageAddsNoMarkup` | main.py:57-63 | The 200 page has exactly the template's own `<` and `>` characters, whatever JSON came back. |
| `Proxy.ErrorFragmentKeepsMarkup` | main.py:54-55 | The 500 fragment contains the exception text verbatim. Each `<` of that text reaches the page, because the message is not escaped. |

## Left out

- The `httpx` GET, the fixed request headers (`User-Agent`, `Accept`, `Referer`, `Origin`),
  `raise_for_status` and `response.json()` (main.py:42-53). These are network I/O in a
  foreign library. Their combined result is the `fetch` parameter, which is deterministic
  for one call. Which exceptions they raise, and the exact text of those exceptions, are
  not modelled.
- The internals of `json.dumps(..., indent=2)`. The serializer is the `dumps` parameter,
  and no key order, indentation or ASCII-only property is claimed.
- How the framework builds `path` and `query`: percent-decoding of the path, and the
  serialization of `request.query_params`. Both enter the model as given strings.
- How the HTTP client parses and normalises the target URL before sending it. The model
  reads the URL back with the plain rules of RFC 3986 (query after the first `?`,
  fragment from the first `#` not sent).
- Proxy.Respond: `dumps` is a total function, so an exception raised by `json.dumps`,
  `html.escape` or `substitute` (main.py:57, 59-63), which runs after the `try` and
  would reach the framework's default 500 answer, is not modelled. "Status 200 if and
  only if the fetch succeeded" holds only under that assumption.
- Proxy.ProxyApi: the same holds for the handler, which answers with `Respond`.
- FastAPI routing, `async`/`await`, the `HTMLResponse` construction, response headers and
  the `uvicorn.run` bootstrap (main.py:1-6, 35-36, 65-66). A plain string returned by the
  handler is taken to be sent with status 200.
- `string.Template` is modelled only as far as this template needs it: one mapping key,
  and errors without the line and column that Python reports for an invalid placeholder.
