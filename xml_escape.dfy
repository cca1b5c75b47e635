/**
 * BayBisTestServlet.escapeXml: the five predefined entities of section 4.6 of
 * XML 1.0, written by five String.replace calls, ampersand first.
 */
module XmlEscape {
  import opened Wrappers

  /** String.replace with a one-character target: every occurrence of c becomes u. */
  function ReplaceChar(s: string, c: char, u: string): (r: string)
    ensures c !in s ==> r == s
    ensures c !in u ==> c !in r
  {
    if s == [] then [] else (if s[0] == c then u else [s[0]]) + ReplaceChar(s[1..], c, u)
  }

  /** Replacing distributes over concatenation: String.replace works on each part alone. */
  lemma {:induction false} ReplaceAppend(a: string, b: string, c: char, u: string)
    ensures ReplaceChar(a + b, c, u) == ReplaceChar(a, c, u) + ReplaceChar(b, c, u)
  {
    if a != [] {
      var h := if a[0] == c then u else [a[0]];
      var ab := a + b;
      assert ab[0] == a[0] && ab[1..] == a[1..] + b;
      assert ReplaceChar(ab, c, u) == h + ReplaceChar(a[1..] + b, c, u);
      ReplaceAppend(a[1..], b, c, u);
      assert ReplaceChar(a, c, u) == h + ReplaceChar(a[1..], c, u);
    } else {
      assert a + b == b;
    }
  }

  /** The five replace calls in the order escapeXml makes them. */
  function ReplaceChain(t: string): string
  {
    ReplaceChar(ReplaceChar(ReplaceChar(ReplaceChar(ReplaceChar(t,
      '&', "&amp;"), '<', "&lt;"), '>', "&gt;"), '"', "&quot;"), '\'', "&apos;")
  }

  /** The characters the five replace calls rewrite. */
  predicate IsSpecial(x: char)
  {
    x == '&' || x == '<' || x == '>' || x == '"' || x == '\''
  }

  /** The entity reference for a special character; any other character stands for itself. */
  function Entity(x: char): (r: string)
    ensures IsSpecial(x) ==> |r| > 3 && r[0] == '&' && r[|r| - 1] == ';'
    ensures !IsSpecial(x) ==> r == [x]
    ensures '<' !in r && '>' !in r && '"' !in r && '\'' !in r
  {
    match x
    case '&' => "&amp;"
    case '<' => "&lt;"
    case '>' => "&gt;"
    case '"' => "&quot;"
    case '\'' => "&apos;"
    case _ => [x]
  }

  /** Escaping one character at a time. */
  function Escaped(s: string): (r: string)
    ensures '<' !in r && '>' !in r && '"' !in r && '\'' !in r
    ensures (forall k :: 0 <= k < |s| ==> !IsSpecial(s[k])) ==> r == s
    ensures |r| >= |s|
  {
    if s == [] then [] else Entity(s[0]) + Escaped(s[1..])
  }

  /** escapeXml: null becomes the empty string. */
  function EscapeXml(text: Option<string>): (r: string)
    ensures text.None? ==> r == []
    ensures text.Some? ==> r == Escaped(text.value)
  {
    match text
    case None => ""
    case Some(t) => ChainIsPerChar(t); ReplaceChain(t)
  }

  /** String.replace on a one-character string. */
  lemma ReplaceOne(x: char, c: char, u: string)
    ensures ReplaceChar([x], c, u) == if x == c then u else [x]
  {
    assert [x][1..] == [];
  }

  /** The chain on a single character gives that character's entity: no entity is escaped twice. */
  lemma ChainOfChar(x: char)
    ensures ReplaceChain([x]) == Entity(x)
  {
    ReplaceOne(x, '&', "&amp;");
    if x == '&' {
      assert '<' !in "&amp;" && '>' !in "&amp;" && '"' !in "&amp;" && '\'' !in "&amp;";
      return;
    }
    ReplaceOne(x, '<', "&lt;");
    if x == '<' {
      assert '>' !in "&lt;" && '"' !in "&lt;" && '\'' !in "&lt;";
      return;
    }
    ReplaceOne(x, '>', "&gt;");
    if x == '>' {
      assert '"' !in "&gt;" && '\'' !in "&gt;";
      return;
    }
    ReplaceOne(x, '"', "&quot;");
    if x == '"' {
      assert '\'' !in "&quot;";
      return;
    }
    ReplaceOne(x, '\'', "&apos;");
  }

  /** The chain applied to a string is the chain applied to its first character, then to the rest. */
  lemma ChainAppend(a: string, b: string)
    ensures ReplaceChain(a + b) == ReplaceChain(a) + ReplaceChain(b)
  {
    var a1, b1 := ReplaceChar(a, '&', "&amp;"), ReplaceChar(b, '&', "&amp;");
    ReplaceAppend(a, b, '&', "&amp;");
    var a2, b2 := ReplaceChar(a1, '<', "&lt;"), ReplaceChar(b1, '<', "&lt;");
    ReplaceAppend(a1, b1, '<', "&lt;");
    var a3, b3 := ReplaceChar(a2, '>', "&gt;"), ReplaceChar(b2, '>', "&gt;");
    ReplaceAppend(a2, b2, '>', "&gt;");
    var a4, b4 := ReplaceChar(a3, '"', "&quot;"), ReplaceChar(b3, '"', "&quot;");
    ReplaceAppend(a3, b3, '"', "&quot;");
    ReplaceAppend(a4, b4, '\'', "&apos;");
  }

  /** Because '&' is replaced first, the five replace calls amount to a per-character map. */
  lemma {:induction false} ChainIsPerChar(t: string)
    ensures ReplaceChain(t) == Escaped(t)
  {
    if t != [] {
      assert t == [t[0]] + t[1..];
      ChainAppend([t[0]], t[1..]);
      ChainOfChar(t[0]);
      ChainIsPerChar(t[1..]);
    }
  }

  /** Decoding the five predefined entity references; any other text stands for itself. */
  function Unescape(s: string): string
    decreases |s|
  {
    if s == [] then []
    else if "&amp;" <= s then "&" + Unescape(s[5..])
    else if "&lt;" <= s then "<" + Unescape(s[4..])
    else if "&gt;" <= s then ">" + Unescape(s[4..])
    else if "&quot;" <= s then "\"" + Unescape(s[6..])
    else if "&apos;" <= s then "'" + Unescape(s[6..])
    else [s[0]] + Unescape(s[1..])
  }

  /** p is not a prefix of s when they differ at position k. */
  lemma DifferAt(p: string, s: string, k: nat)
    requires k < |p| && k < |s| && p[k] != s[k]
    ensures !(p <= s)
  {
  }

  /** One entity, then anything: decoding gives the character back and goes on after it. */
  lemma UnescapeEntity(x: char, y: string)
    ensures Unescape(Entity(x) + y) == [x] + Unescape(y)
  {
    var e := Entity(x);
    var s := e + y;
    assert s[..|e|] == e;
    assert s[|e|..] == y;
    if x == '&' {
    } else if x == '<' {
      DifferAt("&amp;", s, 1);
    } else if x == '>' {
      DifferAt("&amp;", s, 1);
      DifferAt("&lt;", s, 1);
    } else if x == '"' {
      DifferAt("&amp;", s, 1);
      DifferAt("&lt;", s, 1);
      DifferAt("&gt;", s, 1);
    } else if x == '\'' {
      DifferAt("&amp;", s, 2);
      DifferAt("&lt;", s, 1);
      DifferAt("&gt;", s, 1);
      DifferAt("&quot;", s, 1);
    } else {
      assert s[0] == x != '&';
      assert s[1..] == y;
    }
  }

  /** Decoding undoes escaping for every string. */
  lemma {:induction false} UnescapeEscaped(s: string)
    ensures Unescape(Escaped(s)) == s
  {
    if s != [] {
      UnescapeEntity(s[0], Escaped(s[1..]));
      UnescapeEscaped(s[1..]);
      assert s == [s[0]] + s[1..];
    }
  }

  /** Different texts escape differently, so nothing is lost. */
  lemma EscapeInjective(a: string, b: string)
    ensures EscapeXml(Some(a)) == EscapeXml(Some(b)) ==> a == b
  {
    UnescapeEscaped(a);
    UnescapeEscaped(b);
  }
}
