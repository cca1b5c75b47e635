/**
 * The textual XML scanning the connector does with regular expressions of the
 * shape "<tag>([^<]...)</tag>": an open tag, the text up to the next '<',
 * and a close tag. Shared by the SOAP reply extraction and the PII masking.
 */
module Markup {
  import opened Wrappers

  function Open(tag: string): string { "<" + tag + ">" }

  function Close(tag: string): string { "</" + tag + ">" }

  /** An element with text content c. */
  function ElementText(tag: string, c: string): string { Open(tag) + c + Close(tag) }

  /** A bare element name as the patterns spell it: no markup characters, not a close tag. */
  predicate ValidTag(tag: string)
  {
    |tag| > 0 && tag[0] != '/' && '<' !in tag && '>' !in tag
  }

  /** An opening tag is '<' in front of the name and '>'. */
  lemma OpenSplit(tag: string)
    ensures Open(tag) == ['<'] + (tag + ">") && |Open(tag)| == 1 + |tag + ">"|
  {
  }

  /** The longest prefix of s without '<': what a greedy [^<]* consumes. */
  function Run(s: string): (r: string)
    ensures r <= s && '<' !in r
    ensures |r| < |s| ==> s[|r|] == '<'
  {
    if s == [] || s[0] == '<' then [] else [s[0]] + Run(s[1..])
  }

  /** A '<'-free text followed by nothing or by markup is a whole run. */
  lemma {:induction false} RunOfText(a: string, z: string)
    requires '<' !in a
    requires z == [] || z[0] == '<'
    ensures Run(a + z) == a
  {
    if a != [] {
      assert (a + z)[1..] == a[1..] + z;
      RunOfText(a[1..], z);
    }
  }

  /** A '<'-free prefix of s is a prefix of s's run. */
  lemma {:induction false} RunCovers(p: string, s: string)
    requires '<' !in p && p <= s
    ensures p <= Run(s)
  {
    if p != [] {
      assert s[0] == p[0] != '<';
      assert p[1..] <= s[1..];
      RunCovers(p[1..], s[1..]);
    }
  }

  /**
   * Some(c) when s starts with "<tag>", then the text c up to the next '<',
   * then "</tag>"; None otherwise.
   */
  function TaggedText(tag: string, s: string): (r: Option<string>)
    ensures r.Some? ==> ElementText(tag, r.value) <= s && '<' !in r.value
  {
    var o := Open(tag);
    if o <= s then
      var c := Run(s[|o|..]);
      if Close(tag) <= s[|o| + |c|..] then Some(c) else None
    else None
  }

  /** An element with plain text content is found with exactly that content. */
  lemma TaggedTextOf(tag: string, c: string, rest: string)
    requires ValidTag(tag) && '<' !in c
    ensures TaggedText(tag, ElementText(tag, c) + rest) == Some(c)
  {
    var o := Open(tag);
    var s := o + c + Close(tag) + rest;
    assert s[|o|..] == c + (Close(tag) + rest);
    RunOfText(c, Close(tag) + rest);
    assert s[|o| + |c|..] == Close(tag) + rest;
  }

  /** Two different bare names never open at the same place. */
  lemma OpenExcludes(a: string, b: string, s: string)
    requires ValidTag(a) && ValidTag(b) && a != b
    requires Open(a) <= s
    ensures !(Open(b) <= s)
  {
    if |a| < |b| {
      assert s[|a| + 1] == '>' != Open(b)[|a| + 1];
    } else if |b| < |a| {
      assert s[|b| + 1] == a[|b|] != '>' == Open(b)[|b| + 1];
    } else {
      var k :| 0 <= k < |a| && a[k] != b[k];
      assert s[k + 1] == a[k] != Open(b)[k + 1];
    }
  }

  /** A close tag is never an open tag. */
  lemma CloseIsNotOpen(a: string, b: string, s: string)
    requires ValidTag(b)
    ensures !(Close(a) <= s && Open(b) <= s)
  {
    assert Close(a)[1] == '/' != b[0] == Open(b)[1];
  }

  /** String.contains. */
  predicate Contains(s: string, p: string)
  {
    p <= s || (s != [] && Contains(s[1..], p))
  }

  /** An occurrence cannot start inside a part that lacks the first character of the pattern. */
  lemma {:induction false} ContainsSkip(u: string, v: string, p: string)
    requires p != [] && p[0] !in u
    ensures Contains(u + v, p) <==> Contains(v, p)
  {
    if u != [] {
      assert (u + v)[0] == u[0] != p[0];
      assert !(p <= u + v);
      assert (u + v)[1..] == u[1..] + v;
      ContainsSkip(u[1..], v, p);
      assert Contains(u + v, p) == Contains(u[1..] + v, p);
    } else {
      assert u + v == v;
    }
  }

  lemma {:induction false} NotContainsWithoutHead(s: string, p: string)
    requires p != [] && p[0] !in s
    ensures !Contains(s, p)
  {
    ContainsSkip(s, [], p);
    assert s + [] == s;
  }
}
