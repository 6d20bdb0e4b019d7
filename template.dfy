/**
 * The page the proxy returns on success: `HTML_TEMPLATE`, a
 * `string.Template` whose only placeholder is `$json` between `<body>` and
 * `</body>`, filled by `substitute(json=...)`.
 */
module PageTemplate {
  import opened Text

  /**
   * The template's lines before the one holding the placeholder (the styling
   * is carried verbatim); the literal opens with a line break, hence the
   * empty first line.
   */
  const HeadLines: seq<string> := [
    "",
    "<!DOCTYPE html>",
    "<html lang=\"en\">",
    "<head>",
    "  <meta charset=\"UTF-8\">",
    "  <title>API Data</title>",
    "  <style>",
    "    body {",
    "      background: #0f0f0f;",
    "      color: #fefefe;",
    "      font-family: monospace;",
    "      font-size: 13px;",
    "      padding: 1rem;",
    "      margin: 0;",
    "      white-space: pre;",
    "      overflow-x: auto;",
    "    }",
    "  </style>",
    "</head>"
  ]

  /**
   * The head lines, each followed by a line break. Written out rather than
   * recursively, so that the verifier never unfolds a recursion over the
   * literal lines.
   */
  function JoinHead(lines: seq<string>): string
    requires |lines| == 19
  {
    lines[0] + "\n" + lines[1] + "\n" + lines[2] + "\n" + lines[3] + "\n" + lines[4] + "\n"
    + lines[5] + "\n" + lines[6] + "\n" + lines[7] + "\n" + lines[8] + "\n" + lines[9] + "\n"
    + lines[10] + "\n" + lines[11] + "\n" + lines[12] + "\n" + lines[13] + "\n" + lines[14] + "\n"
    + lines[15] + "\n" + lines[16] + "\n" + lines[17] + "\n" + lines[18] + "\n"
  }

  lemma JoinHeadNoDollar(lines: seq<string>)
    requires |lines| == 19
    requires forall k :: 0 <= k < |lines| ==> '$' !in lines[k]
    ensures '$' !in JoinHead(lines)
  {
  }

  /** The template text before the placeholder. */
  const Prefix: string := JoinHead(HeadLines) + "<body>"

  /** The template text after the placeholder. */
  const Suffix: string := "</body>\n</html>\n"

  const HtmlTemplate: string := Prefix + "$json" + Suffix

  datatype SubstituteError =
    | KeyError(name: string)    // a placeholder whose name the mapping lacks
    | InvalidPlaceholder        // a `$` followed by neither `$`, a name nor `{name}`

  datatype Substituted = Success(text: string) | Failure(error: SubstituteError)

  /** Characters of a placeholder name: ASCII letters, digits and `_`, not starting with a digit. */
  predicate IsNameStart(c: char)
  {
    c == '_' || 'a' <= c <= 'z' || 'A' <= c <= 'Z'
  }

  predicate IsNameChar(c: char)
  {
    IsNameStart(c) || '0' <= c <= '9'
  }

  /** Length of the longest run of name characters at the front of `s`. */
  function NameLength(s: string): (n: nat)
    ensures n <= |s|
    ensures forall i :: 0 <= i < n ==> IsNameChar(s[i])
    ensures n < |s| ==> !IsNameChar(s[n])
  {
    if s == [] || !IsNameChar(s[0]) then 0 else 1 + NameLength(s[1..])
  }

  lemma {:induction false} NameLengthAt(s: string, n: nat)
    requires n <= |s| && (n < |s| ==> !IsNameChar(s[n]))
    requires forall i :: 0 <= i < n ==> IsNameChar(s[i])
    ensures NameLength(s) == n
  {
    if n > 0 {
      NameLengthAt(s[1..], n - 1);
    }
  }

  function Prepend(p: string, r: Substituted): Substituted
  {
    if r.Success? then Success(p + r.text) else r
  }

  /**
   * `Template(t).substitute({key: value})`, scanning left to right: `$$` is a
   * literal `$`, `$name` and `${name}` are replaced by the value when `name`
   * is the key and raise `KeyError` otherwise, and any other `$` raises an
   * invalid-placeholder error. Inserted values are not scanned again.
   */
  function Substitute(t: string, key: string, value: string): Substituted
    decreases |t|
  {
    if t == [] then Success([])
    else if t[0] != '$' then Prepend([t[0]], Substitute(t[1..], key, value))
    else if |t| > 1 && t[1] == '$' then Prepend("$", Substitute(t[2..], key, value))
    else if |t| > 1 && IsNameStart(t[1]) then
      var n := NameLength(t[1..]);
      if t[1..1 + n] == key then Prepend(value, Substitute(t[1 + n..], key, value))
      else Failure(KeyError(t[1..1 + n]))
    else if |t| > 2 && t[1] == '{' && IsNameStart(t[2]) && 2 + NameLength(t[2..]) < |t|
            && t[2 + NameLength(t[2..])] == '}' then
      var n := NameLength(t[2..]);
      if t[2..2 + n] == key then Prepend(value, Substitute(t[3 + n..], key, value))
      else Failure(KeyError(t[2..2 + n]))
    else Failure(InvalidPlaceholder)
  }

  /** Text without `$` comes through substitution unchanged, in front of whatever follows it. */
  lemma {:induction false} SubstitutePlain(a: string, b: string, key: string, value: string)
    requires '$' !in a
    ensures Substitute(a + b, key, value) == Prepend(a, Substitute(b, key, value))
  {
    if a == [] {
      assert a + b == b;
      if Substitute(b, key, value).Success? {
        assert a + Substitute(b, key, value).text == Substitute(b, key, value).text;
      }
    } else {
      assert (a + b)[0] == a[0] && (a + b)[1..] == a[1..] + b;
      assert a[0] != '$';
      SubstitutePlain(a[1..], b, key, value);
      assert [a[0]] + a[1..] == a;
    }
  }

  lemma HeadLineNoDollar(k: nat)
    requires k < |HeadLines|
    ensures '$' !in HeadLines[k]
  {
  }

  lemma NoDollarInTemplateText()
    ensures '$' !in Prefix && '$' !in Suffix
  {
    forall k | 0 <= k < |HeadLines| ensures '$' !in HeadLines[k] {
      HeadLineNoDollar(k);
    }
    JoinHeadNoDollar(HeadLines);
    assert '$' !in "<body>";
  }

  lemma PlaceholderStep(after: string, value: string)
    requires '$' !in after
    requires after != [] ==> !IsNameChar(after[0])
    ensures Substitute("$json" + after, "json", value) == Success(value + after)
  {
    var t := "$json" + after;
    assert t[0] == '$' && t[1] == 'j';
    assert t[1..] == "json" + after;
    NameLengthAt(t[1..], 4);
    assert t[1..5] == "json" && t[5..] == after;
    SubstitutePlain(after, [], "json", value);
    assert after + [] == after;
  }

  /**
   * A template made of `$`-free text around one `$json`, with no name
   * character right after the placeholder, is filled by putting the value in
   * the placeholder's place.
   */
  lemma SubstituteOnePlaceholder(before: string, after: string, value: string)
    requires '$' !in before && '$' !in after
    requires after != [] ==> !IsNameChar(after[0])
    ensures Substitute(before + "$json" + after, "json", value) == Success(before + value + after)
  {
    var rest := "$json" + after;
    assert before + "$json" + after == before + rest;
    SubstitutePlain(before, rest, "json", value);
    PlaceholderStep(after, value);
    assert before + (value + after) == before + value + after;
  }

  /**
   * Filling the page never fails, and it replaces the one placeholder by the
   * value and changes nothing else: the page is the template text before
   * `$json`, the value as given, and the template text after it.
   */
  function RenderPage(value: string): (page: Substituted)
    ensures page == Success(Prefix + value + Suffix)
  {
    NoDollarInTemplateText();
    SubstituteOnePlaceholder(Prefix, Suffix, value);
    Substitute(HtmlTemplate, "json", value)
  }

  lemma DollarCount(before: string, after: string)
    requires '$' !in before && '$' !in after
    ensures Count('$', before + "$json" + after) == 1
  {
    CountAppend('$', before, "$json");
    CountAppend('$', before + "$json", after);
    assert "$json"[1..] == "json";
  }

  /** The template holds exactly one `$`, that of its `$json` placeholder. */
  lemma TemplateHasOnePlaceholder()
    ensures Count('$', HtmlTemplate) == 1
  {
    NoDollarInTemplateText();
    DollarCount(Prefix, Suffix);
  }
}
