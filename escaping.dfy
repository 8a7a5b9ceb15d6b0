/**
 * The `escapeHtml` helper of server.js: a falsy input gives the empty string,
 * anything else goes through five global replacements, `&` first, then
 * `<`, `>`, `"` and `'`.  The model keeps the chain of replacements as written
 * and proves it equal to a single per-character map, from which the
 * security-relevant facts follow: no raw markup character survives, nothing
 * is escaped twice, and the escaping can be undone.
 */
module Escaping {
  import opened Wrappers

  /** The characters the helper rewrites. */
  predicate IsSpecial(c: char) {
    c == '&' || c == '<' || c == '>' || c == '"' || c == '\''
  }

  /** A string in which none of the markup characters `<`, `>`, `"`, `'` appears raw. */
  predicate NoRawMarkup(s: string) {
    '<' !in s && '>' !in s && '"' !in s && '\'' !in s
  }

  /**
   * `s.replace(/c/g, rep)` for a one-character pattern `c` and a replacement
   * without `$` (JavaScript would expand `$&` and `$$` in it).
   */
  function ReplaceAll(s: string, c: char, rep: string): (r: string)
    ensures c !in s ==> r == s
    ensures c !in rep ==> c !in r
  {
    if s == [] then []
    else (if s[0] == c then rep else [s[0]]) + ReplaceAll(s[1..], c, rep)
  }

  /** The five replacements of the helper, in the order the source applies them. */
  function ReplaceChain(s: string): string {
    var amp := ReplaceAll(s, '&', "&amp;");
    var lt := ReplaceAll(amp, '<', "&lt;");
    var gt := ReplaceAll(lt, '>', "&gt;");
    var quot := ReplaceAll(gt, '"', "&quot;");
    ReplaceAll(quot, '\'', "&#39;")
  }

  /** `escapeHtml(str)`: an absent or empty value is falsy and gives `''`. */
  function EscapeHtml(str: Option<string>): (r: string)
    ensures str.None? ==> r == ""
    ensures str == Some("") ==> r == ""
  {
    if str.None? || str.value == "" then "" else ReplaceChain(str.value)
  }

  /** The entity each special character becomes; every other character stays. */
  function EscapeChar(c: char): (r: string)
    ensures IsSpecial(c) <==> r != [c]
    ensures IsSpecial(c) ==> |r| >= 4 && r[0] == '&' && r[|r| - 1] == ';'
    ensures NoRawMarkup(r)
  {
    match c
    case '&' => "&amp;"
    case '<' => "&lt;"
    case '>' => "&gt;"
    case '"' => "&quot;"
    case '\'' => "&#39;"
    case _ => [c]
  }

  /** The per-character escaping map, applied left to right. */
  function EscapeMap(s: string): (r: string)
    ensures NoRawMarkup(r)
    ensures |r| >= |s|
  {
    if s == [] then [] else EscapeChar(s[0]) + EscapeMap(s[1..])
  }

  /** Decoding of the five entities the helper produces; the partner of `EscapeMap`. */
  function Unescape(s: string): string
    decreases |s|
  {
    if s == [] then []
    else if |s| >= 5 && s[..5] == "&amp;" then "&" + Unescape(s[5..])
    else if |s| >= 4 && s[..4] == "&lt;" then "<" + Unescape(s[4..])
    else if |s| >= 4 && s[..4] == "&gt;" then ">" + Unescape(s[4..])
    else if |s| >= 6 && s[..6] == "&quot;" then "\"" + Unescape(s[6..])
    else if |s| >= 5 && s[..5] == "&#39;" then "'" + Unescape(s[5..])
    else [s[0]] + Unescape(s[1..])
  }

  /** A global replacement distributes over concatenation. */
  lemma {:induction false} ReplaceAllAppend(a: string, b: string, c: char, rep: string)
    ensures ReplaceAll(a + b, c, rep) == ReplaceAll(a, c, rep) + ReplaceAll(b, c, rep)
  {
    if a != [] {
      assert (a + b)[0] == a[0];
      assert (a + b)[1..] == a[1..] + b;
      ReplaceAllAppend(a[1..], b, c, rep);
    } else {
      assert a + b == b;
    }
  }

  /** So does the whole chain of replacements. */
  lemma ReplaceChainAppend(a: string, b: string)
    ensures ReplaceChain(a + b) == ReplaceChain(a) + ReplaceChain(b)
  {
    var a1, b1 := ReplaceAll(a, '&', "&amp;"), ReplaceAll(b, '&', "&amp;");
    ReplaceAllAppend(a, b, '&', "&amp;");
    var a2, b2 := ReplaceAll(a1, '<', "&lt;"), ReplaceAll(b1, '<', "&lt;");
    ReplaceAllAppend(a1, b1, '<', "&lt;");
    var a3, b3 := ReplaceAll(a2, '>', "&gt;"), ReplaceAll(b2, '>', "&gt;");
    ReplaceAllAppend(a2, b2, '>', "&gt;");
    var a4, b4 := ReplaceAll(a3, '"', "&quot;"), ReplaceAll(b3, '"', "&quot;");
    ReplaceAllAppend(a3, b3, '"', "&quot;");
    ReplaceAllAppend(a4, b4, '\'', "&#39;");
  }

  /**
   * On one character the chain yields exactly that character's entity: the
   * `&` introduced by a later replacement is never rewritten again, because
   * `&` is handled first.
   */
  lemma ReplaceChainChar(c: char)
    ensures ReplaceChain([c]) == EscapeChar(c)
  {
    var amp := ReplaceAll([c], '&', "&amp;");
    assert amp == if c == '&' then "&amp;" else [c] by {
      assert ReplaceAll([c][1..], '&', "&amp;") == [];
    }
  }

  /** The chain of replacements equals the per-character map. */
  lemma {:induction false} ReplaceChainIsCharMap(s: string)
    ensures ReplaceChain(s) == EscapeMap(s)
  {
    if s != [] {
      assert s == [s[0]] + s[1..];
      ReplaceChainAppend([s[0]], s[1..]);
      ReplaceChainChar(s[0]);
      ReplaceChainIsCharMap(s[1..]);
    }
  }

  /** `escapeHtml` is the per-character map of its input, a missing input counting as empty. */
  lemma EscapeHtmlIsCharMap(str: Option<string>)
    ensures EscapeHtml(str) == EscapeMap(if str.Some? then str.value else "")
  {
    if str.Some? {
      ReplaceChainIsCharMap(str.value);
    }
  }

  /** The per-character map distributes over concatenation. */
  lemma {:induction false} EscapeMapAppend(a: string, b: string)
    ensures EscapeMap(a + b) == EscapeMap(a) + EscapeMap(b)
  {
    if a != [] {
      assert (a + b)[0] == a[0];
      assert (a + b)[1..] == a[1..] + b;
      EscapeMapAppend(a[1..], b);
    } else {
      assert a + b == b;
    }
  }

  /** `escapeHtml` is compositional: escaping a concatenation escapes each part. */
  lemma EscapeHtmlAppend(a: string, b: string)
    ensures EscapeHtml(Some(a + b)) == EscapeHtml(Some(a)) + EscapeHtml(Some(b))
  {
    EscapeHtmlIsCharMap(Some(a + b));
    EscapeHtmlIsCharMap(Some(a));
    EscapeHtmlIsCharMap(Some(b));
    EscapeMapAppend(a, b);
  }

  /** The output of `escapeHtml` never holds a raw `<`, `>`, `"` or `'`. */
  lemma EscapeHtmlNoRawMarkup(str: Option<string>)
    ensures NoRawMarkup(EscapeHtml(str))
  {
    EscapeHtmlIsCharMap(str);
  }

  /** A string without any of the five special characters comes back unchanged. */
  lemma {:induction false} EscapeMapPlain(s: string)
    requires forall i :: 0 <= i < |s| ==> !IsSpecial(s[i])
    ensures EscapeMap(s) == s
  {
    if s != [] {
      EscapeMapPlain(s[1..]);
    }
  }

  /** `escapeHtml` leaves a string with no special character unchanged. */
  lemma EscapeHtmlPlain(s: string)
    requires forall i :: 0 <= i < |s| ==> !IsSpecial(s[i])
    ensures EscapeHtml(Some(s)) == s
  {
    EscapeHtmlIsCharMap(Some(s));
    EscapeMapPlain(s);
  }

  /** A string that does not start with `&` decodes its first character as itself. */
  lemma UnescapePlainHead(s: string)
    requires s != [] && s[0] != '&'
    ensures Unescape(s) == [s[0]] + Unescape(s[1..])
  {
    assert |s| >= 4 ==> s[..4][0] != '&';
    assert |s| >= 5 ==> s[..5][0] != '&';
    assert |s| >= 6 ==> s[..6][0] != '&';
  }

  /** Each entity, followed by anything, decodes to the character it stands for. */
  lemma UnescapeAmp(t: string)
    ensures Unescape("&amp;" + t) == "&" + Unescape(t)
  {
    var s := "&amp;" + t;
    assert s[..5] == "&amp;" && s[5..] == t;
  }

  lemma UnescapeLt(t: string)
    ensures Unescape("&lt;" + t) == "<" + Unescape(t)
  {
    var s := "&lt;" + t;
    assert s[..4] == "&lt;" && s[4..] == t;
    assert |s| >= 5 ==> s[..5][1] == 'l';
  }

  lemma UnescapeGt(t: string)
    ensures Unescape("&gt;" + t) == ">" + Unescape(t)
  {
    var s := "&gt;" + t;
    assert s[..4] == "&gt;" && s[4..] == t;
    assert (|s| >= 5 ==> s[..5][1] == 'g') && s[..4][1] == 'g';
  }

  lemma UnescapeQuot(t: string)
    ensures Unescape("&quot;" + t) == "\"" + Unescape(t)
  {
    var s := "&quot;" + t;
    assert s[..6] == "&quot;" && s[6..] == t;
    assert s[..5][1] == 'q' && s[..4][1] == 'q';
  }

  lemma UnescapeApos(t: string)
    ensures Unescape("&#39;" + t) == "'" + Unescape(t)
  {
    var s := "&#39;" + t;
    assert s[..5] == "&#39;" && s[5..] == t;
    assert (|s| >= 6 ==> s[..6][1] == '#') && s[..5][1] == '#' && s[..4][1] == '#';
  }

  /** Decoding the entity of a character, followed by anything, gives back that character. */
  lemma UnescapeEscapeChar(c: char, t: string)
    ensures Unescape(EscapeChar(c) + t) == [c] + Unescape(t)
  {
    match c
    case '&' => UnescapeAmp(t);
    case '<' => UnescapeLt(t);
    case '>' => UnescapeGt(t);
    case '"' => UnescapeQuot(t);
    case '\'' => UnescapeApos(t);
    case _ =>
      var s := EscapeChar(c) + t;
      assert s[0] == c && s[1..] == t;
      UnescapePlainHead(s);
  }

  /** Decoding undoes the per-character map. */
  lemma {:induction false} UnescapeEscapeMap(s: string)
    ensures Unescape(EscapeMap(s)) == s
  {
    if s != [] {
      UnescapeEscapeChar(s[0], EscapeMap(s[1..]));
      UnescapeEscapeMap(s[1..]);
      assert s == [s[0]] + s[1..];
    }
  }

  /**
   * No double escaping: decoding the output of `escapeHtml` once restores the
   * stored value exactly, so distinct values are never rendered alike.
   */
  lemma EscapeHtmlRoundTrip(s: string)
    ensures Unescape(EscapeHtml(Some(s))) == s
  {
    EscapeHtmlIsCharMap(Some(s));
    UnescapeEscapeMap(s);
  }

  /** `escapeHtml` is injective on present values. */
  lemma EscapeHtmlInjective(a: string, b: string)
    requires EscapeHtml(Some(a)) == EscapeHtml(Some(b))
    ensures a == b
  {
    EscapeHtmlRoundTrip(a);
    EscapeHtmlRoundTrip(b);
  }
}
