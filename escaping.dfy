/**
 * `html.escape(s)` with its default `quote=True`, as `html_escape_json` applies
 * it to the pretty-printed JSON text: `&`, `<`, `>`, `"` and `'` become
 * `&amp;`, `&lt;`, `&gt;`, `&quot;` and `&#x27;`; every other character is
 * copied. The library performs this as a chain of whole-string replacements,
 * ampersand first; `Escape` is that chain and `EscapeEach` the per-character
 * reading of it, and the two are proved equal.
 */
module Escaping {
  import opened Text

  /** The characters `html.escape` rewrites. */
  predicate IsSpecial(c: char)
  {
    c == '&' || c == '<' || c == '>' || c == '"' || c == '\''
  }

  /** `str.replace` with a one-character pattern. */
  function ReplaceChar(s: string, c: char, rep: string): string
  {
    if s == [] then [] else (if s[0] == c then rep else [s[0]]) + ReplaceChar(s[1..], c, rep)
  }

  /** `html.escape(s, quote=True)`: five replacements, `&` first so no entity is escaped twice. */
  function Escape(s: string): string
  {
    var s1 := ReplaceChar(s, '&', "&amp;");
    var s2 := ReplaceChar(s1, '<', "&lt;");
    var s3 := ReplaceChar(s2, '>', "&gt;");
    var s4 := ReplaceChar(s3, '"', "&quot;");
    ReplaceChar(s4, '\'', "&#x27;")
  }

  /** The text one character becomes. */
  function EscapeChar(c: char): (e: string)
    ensures |e| >= 1
    ensures IsSpecial(c) ==> e[0] == '&' && e[|e| - 1] == ';'
    ensures !IsSpecial(c) ==> e == [c]
  {
    match c
    case '&' => "&amp;"
    case '<' => "&lt;"
    case '>' => "&gt;"
    case '"' => "&quot;"
    case '\'' => "&#x27;"
    case _ => [c]
  }

  /** Escaping character by character. */
  function EscapeEach(s: string): string
  {
    if s == [] then [] else EscapeChar(s[0]) + EscapeEach(s[1..])
  }

  /** `t` holds no raw markup character and every `&` in it opens one of the five entities. */
  predicate WellEscaped(t: string)
  {
    && (forall i :: 0 <= i < |t| ==> t[i] != '<' && t[i] != '>' && t[i] != '"' && t[i] != '\'')
    && (forall i :: 0 <= i < |t| && t[i] == '&' ==> EntityAt(t, i))
  }

  predicate EntityAt(t: string, i: int)
  {
    || OccursAt(t, i, "&amp;")
    || OccursAt(t, i, "&lt;")
    || OccursAt(t, i, "&gt;")
    || OccursAt(t, i, "&quot;")
    || OccursAt(t, i, "&#x27;")
  }

  /** The character an entity at the front of `t` stands for, and the entity's length. */
  function LeadingEntity(t: string): (r: Option<(char, nat)>)
    ensures r.Some? <==> EntityAt(t, 0)
    ensures r.Some? ==> IsSpecial(r.value.0) && r.value.1 == |EscapeChar(r.value.0)|
    ensures r.Some? ==> OccursAt(t, 0, EscapeChar(r.value.0))
  {
    if t == [] || t[0] != '&' then None
    else if OccursAt(t, 0, "&amp;") then Some(('&', 5))
    else if OccursAt(t, 0, "&lt;") then Some(('<', 4))
    else if OccursAt(t, 0, "&gt;") then Some(('>', 4))
    else if OccursAt(t, 0, "&quot;") then Some(('"', 6))
    else if OccursAt(t, 0, "&#x27;") then Some(('\'', 6))
    else None
  }

  /** Replaces each of the five entities by its character, left to right; any other text is kept. */
  function Unescape(t: string): string
    decreases |t|
  {
    if t == [] then []
    else match LeadingEntity(t)
      case Some((c, n)) => [c] + Unescape(t[n..])
      case None => [t[0]] + Unescape(t[1..])
  }

  // ---------------------------------------------------------------------------
  // The replacement chain is the per-character escape.

  lemma {:induction false} ReplaceCharAppend(a: string, b: string, c: char, rep: string)
    ensures ReplaceChar(a + b, c, rep) == ReplaceChar(a, c, rep) + ReplaceChar(b, c, rep)
  {
    if a == [] {
      assert a + b == b;
    } else {
      assert (a + b)[1..] == a[1..] + b;
      ReplaceCharAppend(a[1..], b, c, rep);
    }
  }

  lemma {:induction false} ReplaceCharAbsent(s: string, c: char, rep: string)
    requires c !in s
    ensures ReplaceChar(s, c, rep) == s
  {
    if s != [] {
      assert s == [s[0]] + s[1..];
      ReplaceCharAbsent(s[1..], c, rep);
    }
  }

  lemma EscapeAppend(a: string, b: string)
    ensures Escape(a + b) == Escape(a) + Escape(b)
  {
    var a1, b1 := ReplaceChar(a, '&', "&amp;"), ReplaceChar(b, '&', "&amp;");
    ReplaceCharAppend(a, b, '&', "&amp;");
    var a2, b2 := ReplaceChar(a1, '<', "&lt;"), ReplaceChar(b1, '<', "&lt;");
    ReplaceCharAppend(a1, b1, '<', "&lt;");
    var a3, b3 := ReplaceChar(a2, '>', "&gt;"), ReplaceChar(b2, '>', "&gt;");
    ReplaceCharAppend(a2, b2, '>', "&gt;");
    var a4, b4 := ReplaceChar(a3, '"', "&quot;"), ReplaceChar(b3, '"', "&quot;");
    ReplaceCharAppend(a3, b3, '"', "&quot;");
    ReplaceCharAppend(a4, b4, '\'', "&#x27;");
  }

  lemma ReplaceCharSingle(d: char, c: char, rep: string)
    ensures ReplaceChar([d], c, rep) == if d == c then rep else [d]
  {
    assert [d][1..] == [];
  }

  /** A character no replacement matches passes the whole chain unchanged. */
  lemma EscapePlainChar(c: char)
    requires !IsSpecial(c)
    ensures Escape([c]) == [c]
  {
    ReplaceCharSingle(c, '&', "&amp;");
    ReplaceCharSingle(c, '<', "&lt;");
    ReplaceCharSingle(c, '>', "&gt;");
    ReplaceCharSingle(c, '"', "&quot;");
    ReplaceCharSingle(c, '\'', "&#x27;");
  }

  /** Entity text produced by one step holds nothing a later step matches. */
  lemma LaterStepsKeep(e: string)
    requires '<' !in e && '>' !in e && '"' !in e && '\'' !in e
    ensures ReplaceChar(e, '<', "&lt;") == e && ReplaceChar(e, '>', "&gt;") == e
    ensures ReplaceChar(e, '"', "&quot;") == e && ReplaceChar(e, '\'', "&#x27;") == e
  {
    ReplaceCharAbsent(e, '<', "&lt;");
    ReplaceCharAbsent(e, '>', "&gt;");
    ReplaceCharAbsent(e, '"', "&quot;");
    ReplaceCharAbsent(e, '\'', "&#x27;");
  }

  lemma EscapeSingle(c: char)
    ensures Escape([c]) == EscapeChar(c)
  {
    if !IsSpecial(c) {
      EscapePlainChar(c);
    } else if c == '&' {
      ReplaceCharSingle(c, '&', "&amp;");
      LaterStepsKeep("&amp;");
    } else if c == '<' {
      ReplaceCharSingle(c, '&', "&amp;");
      ReplaceCharSingle(c, '<', "&lt;");
      LaterStepsKeep("&lt;");
    } else if c == '>' {
      ReplaceCharSingle(c, '&', "&amp;");
      ReplaceCharSingle(c, '<', "&lt;");
      ReplaceCharSingle(c, '>', "&gt;");
      LaterStepsKeep("&gt;");
    } else if c == '"' {
      ReplaceCharSingle(c, '&', "&amp;");
      ReplaceCharSingle(c, '<', "&lt;");
      ReplaceCharSingle(c, '>', "&gt;");
      ReplaceCharSingle(c, '"', "&quot;");
      LaterStepsKeep("&quot;");
    } else {
      ReplaceCharSingle(c, '&', "&amp;");
      ReplaceCharSingle(c, '<', "&lt;");
      ReplaceCharSingle(c, '>', "&gt;");
      ReplaceCharSingle(c, '"', "&quot;");
      ReplaceCharSingle(c, '\'', "&#x27;");
    }
  }

  /** The library's replacement chain escapes each character on its own. */
  lemma {:induction false} EscapeMatchesPerChar(s: string)
    ensures Escape(s) == EscapeEach(s)
  {
    if s == [] {
    } else {
      assert s == [s[0]] + s[1..];
      EscapeAppend([s[0]], s[1..]);
      EscapeSingle(s[0]);
      EscapeMatchesPerChar(s[1..]);
    }
  }

  /** Escaping a concatenation escapes each part. */
  lemma EscapeSplit(s: string, i: nat)
    requires i < |s|
    ensures Escape(s) == Escape(s[..i]) + EscapeChar(s[i]) + Escape(s[i + 1..])
  {
    assert s == s[..i] + ([s[i]] + s[i + 1..]);
    EscapeAppend(s[..i], [s[i]] + s[i + 1..]);
    EscapeAppend([s[i]], s[i + 1..]);
    EscapeSingle(s[i]);
  }

  // ---------------------------------------------------------------------------
  // What the escaped text looks like.

  lemma WellEscapedAppend(a: string, b: string)
    requires WellEscaped(a) && WellEscaped(b)
    ensures WellEscaped(a + b)
  {
    var t := a + b;
    forall i | 0 <= i < |t| && t[i] == '&' ensures EntityAt(t, i) {
      if i < |a| {
        assert a[i] == '&';
        OccursInAppend(a, b, i, "&amp;");
        OccursInAppend(a, b, i, "&lt;");
        OccursInAppend(a, b, i, "&gt;");
        OccursInAppend(a, b, i, "&quot;");
        OccursInAppend(a, b, i, "&#x27;");
      } else {
        var j := i - |a|;
        assert b[j] == '&';
        OccursInAppend(a, b, j, "&amp;");
        OccursInAppend(a, b, j, "&lt;");
        OccursInAppend(a, b, j, "&gt;");
        OccursInAppend(a, b, j, "&quot;");
        OccursInAppend(a, b, j, "&#x27;");
      }
    }
  }

  lemma WellEscapedChar(c: char)
    ensures WellEscaped(EscapeChar(c))
  {
    var e := EscapeChar(c);
    if IsSpecial(c) {
      assert OccursAt(e, 0, e);
      assert forall i :: 0 < i < |e| ==> e[i] != '&';
    }
  }

  /**
   * The escaped text holds no raw `<`, `>`, `"` or `'`, and every `&` in it
   * opens one of the five entities.
   */
  lemma {:induction false} EscapeIsWellEscaped(s: string)
    ensures WellEscaped(Escape(s))
  {
    EscapeMatchesPerChar(s);
    EachIsWellEscaped(s);
  }

  lemma {:induction false} EachIsWellEscaped(s: string)
    ensures WellEscaped(EscapeEach(s))
  {
    if s != [] {
      EachIsWellEscaped(s[1..]);
      WellEscapedChar(s[0]);
      WellEscapedAppend(EscapeChar(s[0]), EscapeEach(s[1..]));
    }
  }

  /** An entity is recognised as the one standing for its own character. */
  lemma LeadingEntityOf(c: char, t: string)
    requires IsSpecial(c)
    ensures LeadingEntity(EscapeChar(c) + t) == Some((c, |EscapeChar(c)|))
  {
    var e := EscapeChar(c);
    var u := e + t;
    assert u[..|e|] == e;
    assert u[0] == '&' && u[1] == e[1];
  }

  /** Unescape reads one entity, or one plain character, off the front. */
  lemma UnescapeHead(c: char, t: string)
    ensures Unescape(EscapeChar(c) + t) == [c] + Unescape(t)
  {
    var e := EscapeChar(c);
    var u := e + t;
    assert u[|e|..] == t;
    if IsSpecial(c) {
      LeadingEntityOf(c, t);
    } else {
      assert u[0] == c && u[1..] == t;
    }
  }

  lemma {:induction false} UnescapeEach(s: string)
    ensures Unescape(EscapeEach(s)) == s
  {
    if s != [] {
      UnescapeHead(s[0], EscapeEach(s[1..]));
      UnescapeEach(s[1..]);
      assert [s[0]] + s[1..] == s;
    }
  }

  /** Decoding the five entities gives back exactly the text that was escaped. */
  lemma UnescapeEscape(s: string)
    ensures Unescape(Escape(s)) == s
  {
    EscapeMatchesPerChar(s);
    UnescapeEach(s);
  }

  lemma WellEscapedSuffix(t: string, k: nat)
    requires WellEscaped(t) && k <= |t|
    ensures WellEscaped(t[k..])
  {
    var u := t[k..];
    forall i | 0 <= i < |u| && u[i] == '&' ensures EntityAt(u, i) {
      assert t[k + i] == '&';
      OccursInSuffix(t, k, i, "&amp;");
      OccursInSuffix(t, k, i, "&lt;");
      OccursInSuffix(t, k, i, "&gt;");
      OccursInSuffix(t, k, i, "&quot;");
      OccursInSuffix(t, k, i, "&#x27;");
    }
  }

  /** An entity at the front of `t` re-escapes to itself. */
  lemma EachEntityHead(t: string, c: char)
    requires IsSpecial(c) && OccursAt(t, 0, EscapeChar(c))
    requires EscapeEach(Unescape(t[|EscapeChar(c)|..])) == t[|EscapeChar(c)|..]
    ensures EscapeEach([c] + Unescape(t[|EscapeChar(c)|..])) == t
  {
    var k := |EscapeChar(c)|;
    var u := [c] + Unescape(t[k..]);
    assert u[0] == c && u[1..] == Unescape(t[k..]);
    assert t == t[..k] + t[k..];
  }

  lemma {:induction false} EachUnescape(t: string)
    requires WellEscaped(t)
    ensures EscapeEach(Unescape(t)) == t
    decreases |t|
  {
    if t != [] {
      match LeadingEntity(t)
      case Some((c, n)) =>
        WellEscapedSuffix(t, n);
        EachUnescape(t[n..]);
        EachEntityHead(t, c);
      case None =>
        assert !IsSpecial(t[0]);
        WellEscapedSuffix(t, 1);
        EachUnescape(t[1..]);
        var u := [t[0]] + Unescape(t[1..]);
        assert u[0] == t[0] && u[1..] == Unescape(t[1..]);
        assert t == [t[0]] + t[1..];
    }
  }

  /**
   * Every well-escaped text is the escape of its decoding: together with
   * UnescapeEscape, escaping is a bijection between all texts and the
   * well-escaped ones.
   */
  lemma EscapeUnescape(t: string)
    requires WellEscaped(t)
    ensures Escape(Unescape(t)) == t
  {
    EachUnescape(t);
    EscapeMatchesPerChar(Unescape(t));
  }

  /** Escaping loses nothing: different texts have different escapes. */
  lemma EscapeInjective(a: string, b: string)
    requires Escape(a) == Escape(b)
    ensures a == b
  {
    UnescapeEscape(a);
    UnescapeEscape(b);
  }

  /** How many characters escaping adds for each occurrence of a special one. */
  function Growth(s: string): nat
  {
    4 * Count('&', s) + 3 * Count('<', s) + 3 * Count('>', s) + 5 * Count('"', s) + 5 * Count('\'', s)
  }

  lemma {:induction false} EachLength(s: string)
    ensures |EscapeEach(s)| == |s| + Growth(s)
  {
    if s != [] {
      EachLength(s[1..]);
    }
  }

  /**
   * The escaped text is longer than its input by exactly four characters per
   * `&`, three per `<` or `>` and five per `"` or `'`.
   */
  lemma EscapeLength(s: string)
    ensures |Escape(s)| == |s| + Growth(s)
    ensures |Escape(s)| >= |s|
  {
    EscapeMatchesPerChar(s);
    EachLength(s);
  }

  /** Escaping changes a text exactly when it holds one of the five special characters. */
  lemma EscapeIdentity(s: string)
    ensures Escape(s) == s <==> forall i :: 0 <= i < |s| ==> !IsSpecial(s[i])
  {
    EscapeLength(s);
    if forall i :: 0 <= i < |s| ==> !IsSpecial(s[i]) {
      EscapeMatchesPerChar(s);
      PlainEach(s);
    } else {
      var i :| 0 <= i < |s| && IsSpecial(s[i]);
      assert s[i] in s;
      assert Growth(s) > 0;
    }
  }

  lemma {:induction false} PlainEach(s: string)
    requires forall i :: 0 <= i < |s| ==> !IsSpecial(s[i])
    ensures EscapeEach(s) == s
  {
    if s != [] {
      PlainEach(s[1..]);
      assert s == [s[0]] + s[1..];
    }
  }

  /** Where input character `i` lands in the escaped text. */
  function Offset(s: string, i: nat): nat
    requires i <= |s|
  {
    |Escape(s[..i])|
  }

  /**
   * Every input character lands, as its escape, at its offset, and offsets
   * strictly increase: characters other than the five are copied unchanged
   * and in their original order.
   */
  lemma EscapePlacement(s: string, i: nat, j: nat)
    requires i < j <= |s|
    ensures OccursAt(Escape(s), Offset(s, i), EscapeChar(s[i]))
    ensures !IsSpecial(s[i]) ==> Escape(s)[Offset(s, i)] == s[i]
    ensures Offset(s, i) < Offset(s, j)
  {
    EscapeSplit(s, i);
    var pre, mid := Escape(s[..i]), EscapeChar(s[i]);
    OccursInAppend(pre, mid, 0, mid);
    assert OccursAt(mid, 0, mid);
    OccursInAppend(pre + mid, Escape(s[i + 1..]), |pre|, mid);
    assert s[..j] == s[..i] + s[i..j];
    EscapeAppend(s[..i], s[i..j]);
    EscapeLength(s[i..j]);
  }
}
