/**
 * `escapeHtml` of app.js: the text of a demand is made safe for insertion
 * into markup by five `replaceAll` passes, `&` first.
 */
module HtmlEscape {
  import opened Wrappers

  /** `String.prototype.replaceAll` with a one-character pattern `c`. */
  function ReplaceAll(s: string, c: char, rep: string): (r: string)
    ensures forall x :: x in r ==> (x in s && x != c) || x in rep
    ensures c !in s ==> r == s
  {
    if s == [] then []
    else (if s[0] == c then rep else [s[0]]) + ReplaceAll(s[1..], c, rep)
  }

  /** The characters `escapeHtml` rewrites. */
  predicate IsMarkup(c: char) {
    c == '&' || c == '<' || c == '>' || c == '"' || c == '\''
  }

  /** The `replaceAll` chain of `escapeHtml`, in the source's order. */
  function EscapeChain(s: string): string {
    var amp := ReplaceAll(s, '&', "&amp;");
    var lt := ReplaceAll(amp, '<', "&lt;");
    var gt := ReplaceAll(lt, '>', "&gt;");
    var quot := ReplaceAll(gt, '"', "&quot;");
    ReplaceAll(quot, '\'', "&#039;")
  }

  /** `<` is gone after its own pass, and no later replacement brings it back. */
  lemma LtRemoved(s: string)
    ensures '<' !in EscapeChain(s)
  {
    var lt := ReplaceAll(ReplaceAll(s, '&', "&amp;"), '<', "&lt;");
    assert '<' !in lt;
    var gt := ReplaceAll(lt, '>', "&gt;");
    assert '<' !in gt;
    var quot := ReplaceAll(gt, '"', "&quot;");
    assert '<' !in quot;
    assert '<' !in ReplaceAll(quot, '\'', "&#039;");
  }

  lemma GtRemoved(s: string)
    ensures '>' !in EscapeChain(s)
  {
    var lt := ReplaceAll(ReplaceAll(s, '&', "&amp;"), '<', "&lt;");
    var gt := ReplaceAll(lt, '>', "&gt;");
    assert '>' !in gt;
    var quot := ReplaceAll(gt, '"', "&quot;");
    assert '>' !in quot;
    assert '>' !in ReplaceAll(quot, '\'', "&#039;");
  }

  lemma QuotRemoved(s: string)
    ensures '"' !in EscapeChain(s)
  {
    var lt := ReplaceAll(ReplaceAll(s, '&', "&amp;"), '<', "&lt;");
    var gt := ReplaceAll(lt, '>', "&gt;");
    var quot := ReplaceAll(gt, '"', "&quot;");
    assert '"' !in quot;
    assert '"' !in ReplaceAll(quot, '\'', "&#039;");
  }

  lemma AposRemoved(s: string)
    ensures '\'' !in EscapeChain(s)
  {
    var lt := ReplaceAll(ReplaceAll(s, '&', "&amp;"), '<', "&lt;");
    var quot := ReplaceAll(ReplaceAll(lt, '>', "&gt;"), '"', "&quot;");
    assert '\'' !in ReplaceAll(quot, '\'', "&#039;");
  }

  /** After the five passes no `<`, `>`, `"` or `'` is left. */
  lemma EscapeChainSafe(s: string)
    ensures var r := EscapeChain(s); '<' !in r && '>' !in r && '"' !in r && '\'' !in r
  {
    LtRemoved(s);
    GtRemoved(s);
    QuotRemoved(s);
    AposRemoved(s);
  }

  /** Text without any of the five characters passes the chain unchanged. */
  lemma EscapeChainPlain(s: string)
    requires forall c | c in s :: !IsMarkup(c)
    ensures EscapeChain(s) == s
  {
    var amp := ReplaceAll(s, '&', "&amp;");
    assert amp == s;
    var lt := ReplaceAll(amp, '<', "&lt;");
    assert lt == s;
    var gt := ReplaceAll(lt, '>', "&gt;");
    assert gt == s;
    var quot := ReplaceAll(gt, '"', "&quot;");
    assert quot == s;
  }

  /**
   * `escapeHtml(str)`: `None` stands for `null` and `undefined`, which become
   * the empty string. No markup delimiter survives, and text without any of
   * the five characters comes back unchanged.
   */
  function EscapeHtml(str: Option<string>): (r: string)
    ensures '<' !in r && '>' !in r && '"' !in r && '\'' !in r
    ensures (forall c | c in str.GetOr("") :: !IsMarkup(c)) ==> r == str.GetOr("")
    ensures str.None? ==> r == ""
  {
    var s := str.GetOr("");
    EscapeChainSafe(s);
    assert (forall c | c in s :: !IsMarkup(c)) ==> EscapeChain(s) == s by {
      if forall c | c in s :: !IsMarkup(c) {
        EscapeChainPlain(s);
      }
    }
    EscapeChain(s)
  }

  // ---------- Escaping is character by character ----------

  /** The entity `escapeHtml` writes for one character. */
  function Entity(c: char): string {
    match c
    case '&' => "&amp;"
    case '<' => "&lt;"
    case '>' => "&gt;"
    case '"' => "&quot;"
    case '\'' => "&#039;"
    case _ => [c]
  }

  /** Reference definition: every character replaced by its entity in one pass. */
  function EscapeChars(s: string): string {
    if s == [] then [] else Entity(s[0]) + EscapeChars(s[1..])
  }

  lemma {:induction false} ReplaceAllConcat(a: string, b: string, c: char, rep: string)
    ensures ReplaceAll(a + b, c, rep) == ReplaceAll(a, c, rep) + ReplaceAll(b, c, rep)
    decreases |a|
  {
    if a != [] {
      assert (a + b)[1..] == a[1..] + b;
      ReplaceAllConcat(a[1..], b, c, rep);
    } else {
      assert a + b == b;
    }
  }

  lemma EscapeChainConcat(a: string, b: string)
    ensures EscapeChain(a + b) == EscapeChain(a) + EscapeChain(b)
  {
    var a1, b1 := ReplaceAll(a, '&', "&amp;"), ReplaceAll(b, '&', "&amp;");
    ReplaceAllConcat(a, b, '&', "&amp;");
    var a2, b2 := ReplaceAll(a1, '<', "&lt;"), ReplaceAll(b1, '<', "&lt;");
    ReplaceAllConcat(a1, b1, '<', "&lt;");
    var a3, b3 := ReplaceAll(a2, '>', "&gt;"), ReplaceAll(b2, '>', "&gt;");
    ReplaceAllConcat(a2, b2, '>', "&gt;");
    var a4, b4 := ReplaceAll(a3, '"', "&quot;"), ReplaceAll(b3, '"', "&quot;");
    ReplaceAllConcat(a3, b3, '"', "&quot;");
    ReplaceAllConcat(a4, b4, '\'', "&#039;");
  }

  lemma ReplaceAllChar(x: char, c: char, rep: string)
    ensures ReplaceAll([x], c, rep) == if x == c then rep else [x]
  {
    assert [x][1..] == [];
  }

  lemma EscapeChainChar(c: char)
    ensures EscapeChain([c]) == Entity(c)
  {
    if !IsMarkup(c) {
      EscapeChainPlain([c]);
    } else if c == '&' {
      ReplaceAllChar(c, '&', "&amp;");
      assert '<' !in "&amp;" && '>' !in "&amp;" && '"' !in "&amp;" && '\'' !in "&amp;";
    } else if c == '<' {
      ReplaceAllChar(c, '&', "&amp;");
      ReplaceAllChar(c, '<', "&lt;");
      assert '>' !in "&lt;" && '"' !in "&lt;" && '\'' !in "&lt;";
    } else if c == '>' {
      ReplaceAllChar(c, '&', "&amp;");
      ReplaceAllChar(c, '<', "&lt;");
      ReplaceAllChar(c, '>', "&gt;");
      assert '"' !in "&gt;" && '\'' !in "&gt;";
    } else if c == '"' {
      ReplaceAllChar(c, '&', "&amp;");
      ReplaceAllChar(c, '<', "&lt;");
      ReplaceAllChar(c, '>', "&gt;");
      ReplaceAllChar(c, '"', "&quot;");
      assert '\'' !in "&quot;";
    } else {
      ReplaceAllChar(c, '&', "&amp;");
      ReplaceAllChar(c, '<', "&lt;");
      ReplaceAllChar(c, '>', "&gt;");
      ReplaceAllChar(c, '"', "&quot;");
      ReplaceAllChar(c, '\'', "&#039;");
    }
  }

  /**
   * Because `&` is replaced first, no later pass touches an entity an earlier
   * pass wrote: the chain is the one-pass, per-character escape.
   */
  lemma {:induction false} EscapeHtmlIsCharwise(s: string)
    ensures EscapeHtml(Some(s)) == EscapeChars(s)
    decreases |s|
  {
    if s != [] {
      assert s == [s[0]] + s[1..];
      EscapeChainConcat([s[0]], s[1..]);
      EscapeChainChar(s[0]);
      EscapeHtmlIsCharwise(s[1..]);
    }
  }

  // ---------- Decoding ----------

  predicate StartsWith(s: string, prefix: string) {
    |prefix| <= |s| && s[..|prefix|] == prefix
  }

  /** Decodes the five entities `escapeHtml` writes and keeps every other character. */
  function Unescape(s: string): string
    decreases |s|
  {
    if s == [] then []
    else if s[0] != '&' then [s[0]] + Unescape(s[1..])
    else if StartsWith(s, "&amp;") then "&" + Unescape(s[5..])
    else if StartsWith(s, "&lt;") then "<" + Unescape(s[4..])
    else if StartsWith(s, "&gt;") then ">" + Unescape(s[4..])
    else if StartsWith(s, "&quot;") then "\"" + Unescape(s[6..])
    else if StartsWith(s, "&#039;") then "'" + Unescape(s[6..])
    else [s[0]] + Unescape(s[1..])
  }

  lemma UnescapeEntity(c: char, rest: string)
    ensures Unescape(Entity(c) + rest) == [c] + Unescape(rest)
  {
    var e := Entity(c);
    var t := e + rest;
    assert t[..|e|] == e && t[|e|..] == rest;
    if c == '&' {
      assert StartsWith(t, "&amp;");
    } else if c == '<' {
      assert t[1] == 'l';
      assert !StartsWith(t, "&amp;") && StartsWith(t, "&lt;");
    } else if c == '>' {
      assert t[1] == 'g';
      assert !StartsWith(t, "&amp;") && !StartsWith(t, "&lt;") && StartsWith(t, "&gt;");
    } else if c == '"' {
      assert t[1] == 'q';
      assert !StartsWith(t, "&amp;") && !StartsWith(t, "&lt;") && !StartsWith(t, "&gt;");
      assert StartsWith(t, "&quot;");
    } else if c == '\'' {
      assert t[1] == '#';
      assert !StartsWith(t, "&amp;") && !StartsWith(t, "&lt;") && !StartsWith(t, "&gt;");
      assert !StartsWith(t, "&quot;") && StartsWith(t, "&#039;");
    } else {
      assert t[0] == c && t[1..] == rest;
    }
  }

  /** Escaping loses nothing: decoding the escaped text gives the original back. */
  lemma {:induction false} UnescapeEscapeHtml(s: string)
    ensures Unescape(EscapeHtml(Some(s))) == s
    decreases |s|
  {
    EscapeHtmlIsCharwise(s);
    if s != [] {
      UnescapeEntity(s[0], EscapeChars(s[1..]));
      UnescapeEscapeHtml(s[1..]);
      EscapeHtmlIsCharwise(s[1..]);
    }
  }
}
