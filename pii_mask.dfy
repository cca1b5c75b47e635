/**
 * BayBisSoapClient.maskPII: the copy of a payload that goes to the log, with
 * personal data in nine bare elements masked by nine String.replaceAll calls
 * applied one after the other.
 */
module PiiMask {
  import opened Wrappers
  import opened Markup
  import Decimal

  /** What a rule demands of the element text and what it writes instead. */
  datatype Kind =
    | KeepTwo      // [^<]{2}[^<]*  ->  first two characters + "***"
    | KeepYear     // \d{4}-\d{2}-\d{2}  ->  year + "-**-**"
    | Whole        // [^<]+  ->  "***"
    | WholeDigits  // \d+  ->  "***"

  /** One replaceAll call: "(<tag>)...(</tag>)" with a content pattern. */
  datatype Rule = Rule(tag: string, kind: Kind)

  predicate AllDigits(c: string)
  {
    forall i :: 0 <= i < |c| ==> Decimal.IsDigit(c[i])
  }

  /** YYYY-MM-DD with ASCII digits. */
  predicate IsDate(c: string)
  {
    |c| == 10 && AllDigits(c[..4]) && c[4] == '-' && AllDigits(c[5..7]) && c[7] == '-' && AllDigits(c[8..])
  }

  /** Whether the content pattern of a rule matches the whole text c of an element. */
  predicate Accepts(k: Kind, c: string)
  {
    match k
    case KeepTwo => |c| >= 2
    case KeepYear => IsDate(c)
    case Whole => |c| >= 1
    case WholeDigits => |c| >= 1 && AllDigits(c)
  }

  /** The text a rule writes in place of an accepted text c. */
  function Masked(k: Kind, c: string): (m: string)
    requires Accepts(k, c)
    ensures '<' !in c ==> '<' !in m
  {
    match k
    case KeepTwo => c[..2] + "***"
    case KeepYear => c[..4] + "-**-**"
    case Whole => "***"
    case WholeDigits => "***"
  }

  /** Masking a masked text again changes nothing (or the rule no longer applies). */
  lemma MaskedIsStable(k: Kind, c: string)
    requires Accepts(k, c)
    ensures Accepts(k, Masked(k, c)) ==> Masked(k, Masked(k, c)) == Masked(k, c)
  {
    var m := Masked(k, c);
    if k == KeepTwo {
      assert m[..2] == c[..2];
    }
  }

  /** The text of the element the rule rewrites at the very start of s, if any. */
  function MatchAt(r: Rule, s: string): (m: Option<string>)
    ensures m.Some? ==> ElementText(r.tag, m.value) <= s && '<' !in m.value && Accepts(r.kind, m.value)
  {
    match TaggedText(r.tag, s)
    case Some(c) => if Accepts(r.kind, c) then Some(c) else None
    case None => None
  }

  /**
   * String.replaceAll for one rule: the leftmost match is rewritten, the
   * search resumes after it; characters where no match starts are kept.
   */
  function ReplaceAll(r: Rule, s: string): string
    decreases |s|
  {
    if s == [] then []
    else match MatchAt(r, s)
      case Some(c) =>
        ElementText(r.tag, Masked(r.kind, c)) + ReplaceAll(r, s[|ElementText(r.tag, c)|..])
      case None => [s[0]] + ReplaceAll(r, s[1..])
  }

  /** The nine rules of maskPII, in the order they are applied. */
  const Rules: seq<Rule> := [
    Rule("name", KeepTwo),
    Rule("nachname", KeepTwo),
    Rule("vornamen", KeepTwo),
    Rule("jahrMonatTag", KeepYear),
    Rule("strasse", Whole),
    Rule("hausnummer", Whole),
    Rule("postleitzahl", Whole),
    Rule("identifikationsmerkmal", WholeDigits),
    Rule("seriennummer", Whole)
  ]

  /** The rules applied in sequence, each to the result of the one before. */
  function ApplyRules(rs: seq<Rule>, s: string): string
    decreases |rs|
  {
    if rs == [] then s else ApplyRules(rs[1..], ReplaceAll(rs[0], s))
  }

  /** maskPII: null stays null. */
  function MaskPII(xml: Option<string>): Option<string>
  {
    match xml
    case None => None
    case Some(s) => Some(ApplyRules(Rules, s))
  }

  // ---------------------------------------------------------------------------
  // How one rule treats text around and between matches

  /** Nothing is rewritten in a stretch without '<': every match starts with '<'. */
  lemma {:induction false} SkipText(r: Rule, u: string, v: string)
    requires '<' !in u
    ensures ReplaceAll(r, u + v) == u + ReplaceAll(r, v)
  {
    if u != [] {
      var s := u + v;
      assert s[0] == u[0] != '<' == Open(r.tag)[0];
      assert MatchAt(r, s) == None;
      assert s[1..] == u[1..] + v;
      SkipText(r, u[1..], v);
    } else {
      assert u + v == v;
    }
  }

  /** A rewritten text still starts with '<' when the original did. */
  lemma StartsWithLt(r: Rule, y: string)
    requires y != [] && y[0] == '<'
    ensures ReplaceAll(r, y) != [] && ReplaceAll(r, y)[0] == '<'
  {
  }

  /** The text before the first '<' is never rewritten. */
  lemma RunIsKept(r: Rule, x: string)
    ensures Run(ReplaceAll(r, x)) == Run(x)
  {
    var a := Run(x);
    var y := x[|a|..];
    assert x == a + y;
    SkipText(r, a, y);
    if y != [] {
      StartsWithLt(r, y);
    }
    RunOfText(a, ReplaceAll(r, y));
  }

  /** Whether a '<'-free text starts a string is not changed by a rule. */
  lemma TextPrefixIsKept(r: Rule, p: string, x: string)
    requires '<' !in p
    ensures p <= x <==> p <= ReplaceAll(r, x)
  {
    RunIsKept(r, x);
    if p <= x {
      RunCovers(p, x);
    }
    if p <= ReplaceAll(r, x) {
      RunCovers(p, ReplaceAll(r, x));
    }
  }

  /** Where a rule matches, the rewritten string starts with the open tag. */
  lemma RewriteStartsWithOpen(r: Rule, s: string)
    requires s != [] && MatchAt(r, s).Some?
    ensures Open(r.tag) <= ReplaceAll(r, s)
  {
    var c := MatchAt(r, s).value;
    var n := |ElementText(r.tag, c)|;
    ReplaceAllAtMatch(r, s);
    OpenStartsElement(r.tag, Masked(r.kind, c), ReplaceAll(r, s[n..]));
  }

  /** ReplaceAll where the rule matches: the masked element, then the rest rewritten. */
  lemma ReplaceAllAtMatch(r: Rule, s: string)
    requires s != [] && MatchAt(r, s).Some?
    ensures var c := MatchAt(r, s).value;
      ReplaceAll(r, s) == ElementText(r.tag, Masked(r.kind, c)) +
        ReplaceAll(r, s[|ElementText(r.tag, c)|..])
  {
  }

  lemma OpenStartsElement(tag: string, c: string, z: string)
    ensures Open(tag) <= ElementText(tag, c) + z
  {
    assert (ElementText(tag, c) + z)[..|Open(tag)|] == Open(tag);
  }

  /** One character in front of two strings does not change which is a prefix of which. */
  lemma PrefixAfterHead(ch: char, p: string, x: string)
    ensures [ch] + p <= [ch] + x <==> p <= x
  {
    if [ch] + p <= [ch] + x {
      assert p == ([ch] + p)[1..] && x[..|p|] == ([ch] + x)[1..|p| + 1];
    }
  }

  /** Whether a close tag starts a string that is empty or starts with '<' is not changed by a rule. */
  lemma CloseIsKept(ri: Rule, tag: string, a: string)
    requires ValidTag(tag) && ValidTag(ri.tag)
    requires a == [] || a[0] == '<'
    ensures Close(tag) <= a <==> Close(tag) <= ReplaceAll(ri, a)
  {
    if a != [] {
      var ra := ReplaceAll(ri, a);
      if MatchAt(ri, a).Some? {
        RewriteStartsWithOpen(ri, a);
        CloseIsNotOpen(tag, ri.tag, a);
        CloseIsNotOpen(tag, ri.tag, ra);
      } else {
        var tail := "/" + tag + ">";
        assert Close(tag) == ['<'] + tail;
        assert ra == ['<'] + ReplaceAll(ri, a[1..]);
        assert a == ['<'] + a[1..];
        TextPrefixIsKept(ri, tail, a[1..]);
        PrefixAfterHead('<', tail, a[1..]);
        PrefixAfterHead('<', tail, ReplaceAll(ri, a[1..]));
      }
    }
  }

  /** TaggedText once the open tag is known to be there: the text up to '<' and then the close tag. */
  function ElementBody(tag: string, y: string): Option<string>
  {
    var c := Run(y);
    if Close(tag) <= y[|c|..] then Some(c) else None
  }

  lemma TaggedTextByBody(tag: string, s: string)
    requires Open(tag) <= s
    ensures TaggedText(tag, s) == ElementBody(tag, s[|Open(tag)|..])
  {
  }

  /** A rule does not change the element body that follows an open tag. */
  lemma BodyIsKept(ri: Rule, tag: string, y: string)
    requires ValidTag(tag) && ValidTag(ri.tag)
    ensures ElementBody(tag, ReplaceAll(ri, y)) == ElementBody(tag, y)
  {
    var c := Run(y);
    RunIsKept(ri, y);
    var after := y[|c|..];
    assert y == c + after;
    SkipText(ri, c, after);
    assert ReplaceAll(ri, y)[|c|..] == ReplaceAll(ri, after);
    CloseIsKept(ri, tag, after);
  }

  /** After a '<', a rule does not change whether an open tag follows. */
  lemma OpenIsKept(ri: Rule, tag: string, x: string)
    requires ValidTag(tag)
    ensures Open(tag) <= ['<'] + x <==> Open(tag) <= ['<'] + ReplaceAll(ri, x)
  {
    var head := tag + ">";
    OpenSplit(tag);
    TextPrefixIsKept(ri, head, x);
    PrefixAfterHead('<', head, x);
    PrefixAfterHead('<', head, ReplaceAll(ri, x));
  }

  /** After a '<' and an open tag, a rule rewrites only what follows the open tag. */
  lemma AfterOpenIsKept(ri: Rule, tag: string, x: string)
    requires ValidTag(tag)
    requires Open(tag) <= ['<'] + x
    ensures Open(tag) <= ['<'] + ReplaceAll(ri, x)
    ensures (['<'] + ReplaceAll(ri, x))[|Open(tag)|..] == ReplaceAll(ri, (['<'] + x)[|Open(tag)|..])
  {
    OpenIsKept(ri, tag, x);
    var head := tag + ">";
    OpenSplit(tag);
    PrefixAfterHead('<', head, x);
    var x' := x[|head|..];
    PrefixSplit(head, x);
    SkipText(ri, head, x');
    DropHead('<', head, x', x, ReplaceAll(ri, x'), ReplaceAll(ri, x));
  }

  lemma PrefixSplit(p: string, x: string)
    requires p <= x
    ensures x == p + x[|p|..]
  {
  }

  /** The text after '<' and head, in a text and in its rewrite. */
  lemma DropHead(c: char, head: string, y: string, x: string, ry: string, rx: string)
    requires x == head + y && rx == head + ry
    ensures ([c] + x)[1 + |head|..] == y && ([c] + rx)[1 + |head|..] == ry
  {
    assert [c] + x == ([c] + head) + y;
    assert [c] + rx == ([c] + head) + ry;
  }

  /**
   * The central fact: rewriting the text after a position (by any rule) does not
   * change which element, if any, starts at that position.
   */
  lemma TaggedTextIsKept(ri: Rule, tag: string, s: string)
    requires ValidTag(tag) && ValidTag(ri.tag)
    requires s != []
    ensures TaggedText(tag, [s[0]] + ReplaceAll(ri, s[1..])) == TaggedText(tag, s)
  {
    var x := s[1..];
    var t := [s[0]] + ReplaceAll(ri, x);
    var o := Open(tag);
    if s[0] == '<' {
      assert s == ['<'] + x;
      OpenIsKept(ri, tag, x);
      if o <= s {
        AfterOpenIsKept(ri, tag, x);
        TaggedTextByBody(tag, s);
        TaggedTextByBody(tag, t);
        BodyIsKept(ri, tag, s[|o|..]);
      }
    } else {
      assert o[0] == '<';
      assert !(o <= s) && !(o <= t);
    }
  }

  lemma MatchAtIsKept(ri: Rule, r: Rule, s: string)
    requires ValidTag(r.tag) && ValidTag(ri.tag)
    requires s != []
    ensures MatchAt(r, [s[0]] + ReplaceAll(ri, s[1..])) == MatchAt(r, s)
  {
    TaggedTextIsKept(ri, r.tag, s);
  }

  /** A rule passes over a close tag. */
  lemma SkipClose(r: Rule, tag: string, z: string)
    requires ValidTag(tag) && ValidTag(r.tag)
    ensures ReplaceAll(r, Close(tag) + z) == Close(tag) + ReplaceAll(r, z)
  {
    var closing := Close(tag) + z;
    var tail := "/" + tag + ">";
    CloseIsNotOpen(tag, r.tag, closing);
    assert MatchAt(r, closing) == None;
    assert closing == "<" + (tail + z);
    SkipText(r, tail, z);
  }

  /** ReplaceAll where the rule does not match: the first character, then the rest rewritten. */
  lemma ReplaceAllElsewhere(r: Rule, s: string)
    requires s != [] && MatchAt(r, s).None?
    ensures ReplaceAll(r, s) == [s[0]] + ReplaceAll(r, s[1..])
  {
  }

  /** An element and what follows it: '<', the rest of the open tag and the text, the close tag and the rest. */
  lemma ElementSplit(tag: string, m: string, y: string)
    ensures ElementText(tag, m) + y == ['<'] + ((tag + ">" + m) + (Close(tag) + y))
    ensures (ElementText(tag, m) + y)[1..] == (tag + ">" + m) + (Close(tag) + y)
  {
    assert ElementText(tag, m) + y == ['<'] + ((tag + ">" + m) + (Close(tag) + y));
  }

  /** A rule passes over an element it does not match, whatever follows. */
  lemma SkipElement(r: Rule, tag: string, m: string, z: string)
    requires ValidTag(tag) && ValidTag(r.tag) && '<' !in m
    requires MatchAt(r, ElementText(tag, m) + z) == None
    ensures ReplaceAll(r, ElementText(tag, m) + z) == ElementText(tag, m) + ReplaceAll(r, z)
  {
    var inner := tag + ">" + m;
    var w := ElementText(tag, m) + z;
    ElementSplit(tag, m, z);
    ReplaceAllElsewhere(r, w);
    SkipText(r, inner, Close(tag) + z);
    SkipClose(r, tag, z);
    ElementSplit(tag, m, ReplaceAll(r, z));
  }

  /** A rule passes over an element of another rule's tag. */
  lemma SkipForeignElement(r: Rule, tag: string, m: string, z: string)
    requires ValidTag(tag) && ValidTag(r.tag) && tag != r.tag && '<' !in m
    ensures ReplaceAll(r, ElementText(tag, m) + z) == ElementText(tag, m) + ReplaceAll(r, z)
  {
    OpenExcludes(tag, r.tag, ElementText(tag, m) + z);
    SkipElement(r, tag, m, z);
  }

  /** Where a rule matches, the string is the element followed by the rest. */
  lemma MatchSplit(r: Rule, s: string)
    requires MatchAt(r, s).Some?
    ensures var c := MatchAt(r, s).value;
      s == ElementText(r.tag, c) + s[|ElementText(r.tag, c)|..]
  {
  }

  // ---------------------------------------------------------------------------
  // Idempotence

  /** A string a rule leaves unchanged. */
  predicate Fixed(r: Rule, s: string)
  {
    ReplaceAll(r, s) == s
  }

  /** Where a rule matches, its rewrite of the whole is fixed once its rewrite of the rest is. */
  lemma IdempotentAtMatch(r: Rule, s: string)
    requires ValidTag(r.tag) && s != [] && MatchAt(r, s).Some?
    requires Fixed(r, ReplaceAll(r, s[|ElementText(r.tag, MatchAt(r, s).value)|..]))
    ensures Fixed(r, ReplaceAll(r, s))
  {
    var c := MatchAt(r, s).value;
    var m := Masked(r.kind, c);
    var z := ReplaceAll(r, s[|ElementText(r.tag, c)|..]);
    ReplaceAllAtMatch(r, s);
    MaskedIsStable(r.kind, c);
    if Accepts(r.kind, m) {
      RewriteElement(r, m, z);
    } else {
      TaggedTextOf(r.tag, m, z);
      SkipElement(r, r.tag, m, z);
    }
  }

  /** A rule rewrites an element it accepts and goes on after it. */
  lemma RewriteElement(r: Rule, m: string, z: string)
    requires ValidTag(r.tag) && '<' !in m && Accepts(r.kind, m)
    ensures ReplaceAll(r, ElementText(r.tag, m) + z) == ElementText(r.tag, Masked(r.kind, m)) + ReplaceAll(r, z)
  {
    var e := ElementText(r.tag, m) + z;
    TaggedTextOf(r.tag, m, z);
    assert MatchAt(r, e) == Some(m);
    assert e[|ElementText(r.tag, m)|..] == z;
  }

  /** Where a rule does not match, its rewrite is fixed once its rewrite of the rest is. */
  lemma IdempotentElsewhere(r: Rule, s: string)
    requires ValidTag(r.tag) && s != [] && MatchAt(r, s).None?
    requires Fixed(r, ReplaceAll(r, s[1..]))
    ensures Fixed(r, ReplaceAll(r, s))
  {
    var x := ReplaceAll(r, s[1..]);
    MatchAtIsKept(r, r, s);
    assert ([s[0]] + x)[1..] == x;
  }

  /** Applying a rule twice is applying it once. */
  lemma {:induction false} ReplaceAllIdempotent(r: Rule, s: string)
    requires ValidTag(r.tag)
    ensures Fixed(r, ReplaceAll(r, s))
    decreases |s|
  {
    if s != [] {
      match MatchAt(r, s)
      case Some(c) =>
        ReplaceAllIdempotent(r, s[|ElementText(r.tag, c)|..]);
        IdempotentAtMatch(r, s);
      case None =>
        ReplaceAllIdempotent(r, s[1..]);
        IdempotentElsewhere(r, s);
    }
  }

  /** A rule does not disturb what another rule (with a different tag) has already settled. */
  lemma {:induction false} FixedIsKept(ri: Rule, rj: Rule, s: string)
    requires ValidTag(ri.tag) && ValidTag(rj.tag) && ri.tag != rj.tag
    requires Fixed(rj, s)
    ensures Fixed(rj, ReplaceAll(ri, s))
    decreases |s|
  {
    if s != [] {
      match MatchAt(ri, s)
      case Some(c) =>
        var n := |ElementText(ri.tag, c)|;
        var rest := s[n..];
        MatchSplit(ri, s);
        SkipForeignElement(rj, ri.tag, c, rest);
        assert Fixed(rj, rest);
        FixedIsKept(ri, rj, rest);
        var m := Masked(ri.kind, c);
        SkipForeignElement(rj, ri.tag, m, ReplaceAll(ri, rest));
      case None =>
        match MatchAt(rj, s)
        case Some(c) =>
          var n := |ElementText(rj.tag, c)|;
          var rest := s[n..];
          MatchSplit(rj, s);
          var m := Masked(rj.kind, c);
          // rj rewrites its element to itself, so m == c and the rest is fixed
          var z := ReplaceAll(rj, rest);
          assert ReplaceAll(rj, s) == ElementText(rj.tag, m) + z;
          assert m == c by {
            var u := ElementText(rj.tag, m) + z;
            TaggedTextOf(rj.tag, m, z);
            TaggedTextOf(rj.tag, c, rest);
          }
          assert |ElementText(rj.tag, c)| == n;
          assert z == rest;
          FixedIsKept(ri, rj, rest);
          SkipElement(ri, rj.tag, c, rest);
          var zi := ReplaceAll(ri, rest);
          TaggedTextOf(rj.tag, c, zi);
          assert MatchAt(rj, ElementText(rj.tag, c) + zi) == Some(c);
          assert (ElementText(rj.tag, c) + zi)[n..] == zi;
        case None =>
          var x := ReplaceAll(ri, s[1..]);
          assert ReplaceAll(rj, s) == [s[0]] + ReplaceAll(rj, s[1..]);
          assert Fixed(rj, s[1..]);
          FixedIsKept(ri, rj, s[1..]);
          MatchAtIsKept(ri, rj, s);
          assert ([s[0]] + x)[1..] == x;
    }
  }

  // ---------------------------------------------------------------------------
  // Cutting a payload in front of markup

  /**
   * A place where a payload can be cut without cutting a match: the end, or a
   * '<' that does not begin a closing tag.
   */
  predicate CutPoint(w: string)
  {
    w == [] || (w[0] == '<' && (|w| == 1 || w[1] != '/'))
  }

  /** A string with '<' only in front starts u + w exactly when it starts u, w starting with '<'. */
  lemma PrefixAcrossCut(p: string, u: string, w: string)
    requires p != [] && forall k :: 0 < k < |p| ==> p[k] != '<'
    requires u != [] && (w == [] || w[0] == '<')
    ensures p <= u + w <==> p <= u
  {
    if |p| <= |u| {
      assert (u + w)[..|p|] == u[..|p|];
    } else if w != [] {
      assert (u + w)[|u|] == '<';
      assert p[|u|] != '<';
    }
  }

  /** The run of u + w is the run of u when w is empty or starts with '<'. */
  lemma RunAcrossCut(x: string, w: string)
    requires w == [] || w[0] == '<'
    ensures Run(x + w) == Run(x)
  {
    var a := Run(x);
    if |a| < |x| {
      assert x == a + x[|a|..];
      assert x + w == a + (x[|a|..] + w);
      RunOfText(a, x[|a|..] + w);
    } else {
      assert a == x;
      RunOfText(x, w);
    }
  }

  /** An opening tag has '<' only in front. */
  lemma OpenHasOneLt(tag: string)
    requires ValidTag(tag)
    ensures Open(tag) != [] && forall k :: 0 < k < |Open(tag)| ==> Open(tag)[k] != '<'
  {
    var o := Open(tag);
    forall k | 0 < k < |o| ensures o[k] != '<' {
      if k < |o| - 1 {
        assert o[k] == tag[k - 1];
      }
    }
  }

  /** A closing tag has '<' only in front, then '/'. */
  lemma CloseHasOneLt(tag: string)
    requires ValidTag(tag)
    ensures |Close(tag)| > 1 && Close(tag)[1] == '/'
    ensures forall k :: 0 < k < |Close(tag)| ==> Close(tag)[k] != '<'
  {
    var c := Close(tag);
    forall k | 0 < k < |c| ensures c[k] != '<' {
      if 2 <= k < |c| - 1 {
        assert c[k] == tag[k - 2];
      }
    }
  }

  /** Whether a closing tag starts y + w does not depend on w at a cut point. */
  lemma CloseAcrossCut(tag: string, y: string, w: string)
    requires ValidTag(tag) && CutPoint(w)
    requires y == [] || y[0] == '<'
    ensures Close(tag) <= y + w <==> Close(tag) <= y
  {
    CloseHasOneLt(tag);
    if y == [] {
      assert y + w == w;
    } else {
      PrefixAcrossCut(Close(tag), y, w);
    }
  }

  /** After an opening tag that starts u, the text and the closing tag are found alike in u + w. */
  lemma AfterOpenAcrossCut(tag: string, u: string, w: string)
    requires ValidTag(tag) && CutPoint(w) && Open(tag) <= u
    ensures var o := Open(tag);
      var c := Run(u[|o|..]);
      Run((u + w)[|o|..]) == c && |o| + |c| <= |u| &&
      (Close(tag) <= (u + w)[|o| + |c|..] <==> Close(tag) <= u[|o| + |c|..])
  {
    var o := Open(tag);
    var x := u[|o|..];
    DropAppend(u, w, |o|);
    RunAcrossCut(x, w);
    var c := Run(x);
    DropAppend(u, w, |o| + |c|);
    DropDrop(u, |o|, |c|);
    CloseAcrossCut(tag, u[|o| + |c|..], w);
  }

  /** An element that starts in u is found, with the same text, whatever follows u at a cut point. */
  lemma TaggedTextAcrossCut(tag: string, u: string, w: string)
    requires ValidTag(tag) && u != [] && CutPoint(w)
    ensures TaggedText(tag, u + w) == TaggedText(tag, u)
  {
    assert Open(tag) <= u + w <==> Open(tag) <= u by {
      OpenHasOneLt(tag);
      PrefixAcrossCut(Open(tag), u, w);
    }
    if Open(tag) <= u {
      AfterOpenAcrossCut(tag, u, w);
    }
  }

  /** The match at the start of u + w is the match at the start of u. */
  lemma MatchAcrossCut(r: Rule, u: string, w: string)
    requires ValidTag(r.tag) && u != [] && CutPoint(w)
    ensures MatchAt(r, u + w) == MatchAt(r, u)
  {
    TaggedTextAcrossCut(r.tag, u, w);
  }

  /** Dropping a prefix of u from u + w. */
  lemma DropAppend(u: string, w: string, n: nat)
    requires n <= |u|
    ensures (u + w)[n..] == u[n..] + w
  {
  }

  /** Dropping i characters, then j more. */
  lemma DropDrop(u: string, i: nat, j: nat)
    requires i + j <= |u|
    ensures u[i..][j..] == u[i + j..]
  {
  }

  /** Joining three strings, grouped either way. */
  lemma JoinAssoc(a: string, b: string, c: string)
    ensures a + (b + c) == (a + b) + c
  {
  }

  /** ReplaceAll at a match with text c. */
  lemma ReplaceAllAt(r: Rule, s: string, c: string)
    requires MatchAt(r, s) == Some(c)
    ensures |ElementText(r.tag, c)| <= |s|
    ensures ReplaceAll(r, s) == ElementText(r.tag, Masked(r.kind, c)) + ReplaceAll(r, s[|ElementText(r.tag, c)|..])
  {
  }

  /** The step of ReplaceAllSplit at a match: the matched element is cut off u and u + w alike. */
  lemma SplitAtMatch(r: Rule, u: string, w: string, c: string)
    requires ValidTag(r.tag) && u != [] && CutPoint(w) && MatchAt(r, u) == Some(c)
    requires |ElementText(r.tag, c)| <= |u|
    requires var n := |ElementText(r.tag, c)|;
      ReplaceAll(r, u[n..] + w) == ReplaceAll(r, u[n..]) + ReplaceAll(r, w)
    ensures ReplaceAll(r, u + w) == ReplaceAll(r, u) + ReplaceAll(r, w)
  {
    var n := |ElementText(r.tag, c)|;
    MatchAcrossCut(r, u, w);
    DropAppend(u, w, n);
    ReplaceAllAt(r, u + w, c);
    ReplaceAllAt(r, u, c);
  }

  /** The step of ReplaceAllSplit where no match starts: one character is kept in u and u + w alike. */
  lemma SplitElsewhere(r: Rule, u: string, w: string)
    requires ValidTag(r.tag) && u != [] && CutPoint(w) && MatchAt(r, u).None?
    requires ReplaceAll(r, u[1..] + w) == ReplaceAll(r, u[1..]) + ReplaceAll(r, w)
    ensures ReplaceAll(r, u + w) == ReplaceAll(r, u) + ReplaceAll(r, w)
  {
    var s := u + w;
    MatchAcrossCut(r, u, w);
    ReplaceAllElsewhere(r, s);
    ReplaceAllElsewhere(r, u);
    DropAppend(u, w, 1);
    JoinAssoc([u[0]], ReplaceAll(r, u[1..]), ReplaceAll(r, w));
  }

  /** A rule rewrites u + w as u and w apart when w begins at a cut point. */
  lemma {:induction false} ReplaceAllSplit(r: Rule, u: string, w: string)
    requires ValidTag(r.tag) && CutPoint(w)
    ensures ReplaceAll(r, u + w) == ReplaceAll(r, u) + ReplaceAll(r, w)
    decreases |u|
  {
    if u == [] {
      assert u + w == w;
    } else if MatchAt(r, u).Some? {
      var c := MatchAt(r, u).value;
      var n := |ElementText(r.tag, c)|;
      ReplaceAllSplit(r, u[n..], w);
      SplitAtMatch(r, u, w, c);
    } else {
      ReplaceAllSplit(r, u[1..], w);
      SplitElsewhere(r, u, w);
    }
  }

  /** A rule never changes the first character. */
  lemma HeadIsKept(r: Rule, y: string)
    requires y != []
    ensures ReplaceAll(r, y) != [] && ReplaceAll(r, y)[0] == y[0]
  {
    if MatchAt(r, y).Some? {
      assert y[0] == Open(r.tag)[0];
    }
  }

  /** A cut point stays a cut point through a rule. */
  lemma CutIsKept(r: Rule, w: string)
    requires ValidTag(r.tag) && CutPoint(w)
    ensures CutPoint(ReplaceAll(r, w))
  {
    if |w| > 1 {
      match MatchAt(r, w)
      case Some(c) =>
        assert ReplaceAll(r, w)[1] == r.tag[0];
      case None =>
        HeadIsKept(r, w[1..]);
        assert ReplaceAll(r, w)[1] == ReplaceAll(r, w[1..])[0];
    }
  }

  /** The rules rewrite u + w as u and w apart when w begins at a cut point. */
  lemma {:induction false} ApplyRulesSplit(rs: seq<Rule>, u: string, w: string)
    requires (forall i :: 0 <= i < |rs| ==> ValidTag(rs[i].tag)) && CutPoint(w)
    ensures ApplyRules(rs, u + w) == ApplyRules(rs, u) + ApplyRules(rs, w)
    decreases |rs|
  {
    if rs != [] {
      ReplaceAllSplit(rs[0], u, w);
      CutIsKept(rs[0], w);
      ApplyRulesSplit(rs[1..], ReplaceAll(rs[0], u), ReplaceAll(rs[0], w));
    }
  }

  /** Text without markup passes every rule unchanged. */
  lemma {:induction false} TextIsKept(rs: seq<Rule>, t: string)
    requires '<' !in t
    ensures ApplyRules(rs, t) == t
    decreases |rs|
  {
    if rs != [] {
      SkipText(rs[0], t, []);
      assert t + [] == t;
      TextIsKept(rs[1..], t);
    }
  }

  // ---------------------------------------------------------------------------
  // The nine rules together

  /** Every tag is a plain element name and no two rules share one. */
  predicate DistinctTags(rs: seq<Rule>)
  {
    (forall i :: 0 <= i < |rs| ==> ValidTag(rs[i].tag)) &&
    (forall i, j :: 0 <= i < j < |rs| ==> rs[i].tag != rs[j].tag)
  }

  predicate AllFixed(rs: seq<Rule>, s: string)
  {
    forall i :: 0 <= i < |rs| ==> Fixed(rs[i], s)
  }

  predicate IsLetter(ch: char)
  {
    'a' <= ch <= 'z' || 'A' <= ch <= 'Z'
  }

  /** A non-empty name made of letters only. */
  predicate IsName(t: string)
  {
    |t| > 0 && forall k :: 0 <= k < |t| ==> IsLetter(t[k])
  }

  /** The nine element names the rules look for. */
  lemma RuleNamesAreNames()
    ensures IsName("name") && IsName("nachname") && IsName("vornamen")
    ensures IsName("jahrMonatTag") && IsName("strasse") && IsName("hausnummer")
    ensures IsName("postleitzahl") && IsName("identifikationsmerkmal") && IsName("seriennummer")
  {
  }

  lemma RuleTagIsLetters(i: nat)
    requires i < |Rules|
    ensures |Rules[i].tag| > 0 && forall k :: 0 <= k < |Rules[i].tag| ==> IsLetter(Rules[i].tag[k])
  {
    RuleNamesAreNames();
    assert IsName(Rules[i].tag);
  }

  lemma RulesAreDistinct()
    ensures DistinctTags(Rules)
  {
    forall i | 0 <= i < |Rules| ensures ValidTag(Rules[i].tag) {
      RuleTagIsLetters(i);
    }
    forall i, j | 0 <= i < j < |Rules| ensures Rules[i].tag != Rules[j].tag {
      assert |Rules[i].tag| != |Rules[j].tag| || Rules[i].tag[0] != Rules[j].tag[0];
    }
  }

  /** What a rule has settled stays settled through rules with other tags. */
  lemma {:induction false} FixedThroughRules(rs: seq<Rule>, r: Rule, s: string)
    requires DistinctTags(rs) && ValidTag(r.tag)
    requires forall i :: 0 <= i < |rs| ==> rs[i].tag != r.tag
    requires Fixed(r, s)
    ensures Fixed(r, ApplyRules(rs, s))
    decreases |rs|
  {
    if rs != [] {
      FixedIsKept(rs[0], r, s);
      FixedThroughRules(rs[1..], r, ReplaceAll(rs[0], s));
    }
  }

  /** After the rules have run, none of them has anything left to rewrite. */
  lemma {:induction false} ApplyRulesSettles(rs: seq<Rule>, s: string)
    requires DistinctTags(rs)
    ensures AllFixed(rs, ApplyRules(rs, s))
    decreases |rs|
  {
    if rs != [] {
      var s1 := ReplaceAll(rs[0], s);
      ReplaceAllIdempotent(rs[0], s);
      ApplyRulesSettles(rs[1..], s1);
      FixedThroughRules(rs[1..], rs[0], s1);
      assert ApplyRules(rs, s) == ApplyRules(rs[1..], s1);
      forall i | 0 < i < |rs|
        ensures Fixed(rs[i], ApplyRules(rs, s))
      {
        assert rs[i] == rs[1..][i - 1];
      }
    }
  }

  /** Rules that have nothing to rewrite leave the string as it is. */
  lemma {:induction false} ApplyRulesOnSettled(rs: seq<Rule>, s: string)
    requires AllFixed(rs, s)
    ensures ApplyRules(rs, s) == s
    decreases |rs|
  {
    if rs != [] {
      assert Fixed(rs[0], s);
      assert AllFixed(rs[1..], s) by {
        forall i | 0 <= i < |rs| - 1 ensures Fixed(rs[1..][i], s) {
          assert rs[1..][i] == rs[i + 1];
        }
      }
      ApplyRulesOnSettled(rs[1..], s);
    }
  }

  /** Masking a masked payload again changes nothing. */
  lemma MaskPIIIdempotent(xml: Option<string>)
    ensures MaskPII(MaskPII(xml)) == MaskPII(xml)
  {
    if xml.Some? {
      RulesAreDistinct();
      ApplyRulesSettles(Rules, xml.value);
      ApplyRulesOnSettled(Rules, ApplyRules(Rules, xml.value));
    }
  }

  // ---------------------------------------------------------------------------
  // What happens to one element

  /** A single element under one rule: rewritten when the rule's tag and pattern match, else kept. */
  lemma OneElementOneRule(r: Rule, tag: string, m: string)
    requires ValidTag(tag) && ValidTag(r.tag) && '<' !in m
    ensures ReplaceAll(r, ElementText(tag, m)) ==
      if tag == r.tag && Accepts(r.kind, m) then ElementText(tag, Masked(r.kind, m))
      else ElementText(tag, m)
  {
    var e := ElementText(tag, m);
    assert e + [] == e;
    TaggedTextOf(tag, m, []);
    if tag == r.tag && Accepts(r.kind, m) {
      assert MatchAt(r, e) == Some(m);
      assert e[|ElementText(tag, m)|..] == [];
      var mm := ElementText(tag, Masked(r.kind, m));
      assert mm + [] == mm;
    } else {
      if tag != r.tag {
        OpenExcludes(tag, r.tag, e + []);
      }
      SkipElement(r, tag, m, []);
    }
  }

  /** An element whose tag no rule names passes through all rules unchanged. */
  lemma {:induction false} ForeignElementKept(rs: seq<Rule>, tag: string, m: string)
    requires DistinctTags(rs) && ValidTag(tag) && '<' !in m
    requires forall i :: 0 <= i < |rs| ==> rs[i].tag != tag
    ensures ApplyRules(rs, ElementText(tag, m)) == ElementText(tag, m)
    decreases |rs|
  {
    if rs != [] {
      OneElementOneRule(rs[0], tag, m);
      ForeignElementKept(rs[1..], tag, m);
    }
  }

  /** The rules after the first keep distinct tags, none of them the first rule's. */
  lemma DistinctTail(rs: seq<Rule>)
    requires DistinctTags(rs) && rs != []
    ensures DistinctTags(rs[1..])
    ensures forall i :: 0 <= i < |rs[1..]| ==> rs[1..][i].tag != rs[0].tag
  {
    forall i | 0 <= i < |rs[1..]| ensures rs[1..][i] == rs[i + 1] {
    }
  }

  /** What rule r alone makes of one of its own elements with text m. */
  function MaskedElement(r: Rule, m: string): string
    requires '<' !in m
  {
    if Accepts(r.kind, m) then ElementText(r.tag, Masked(r.kind, m)) else ElementText(r.tag, m)
  }

  /** An element named by rule k is rewritten by that rule alone. */
  lemma {:induction false} NamedElementMasked(rs: seq<Rule>, k: nat, m: string)
    requires DistinctTags(rs) && k < |rs| && '<' !in m
    ensures ApplyRules(rs, ElementText(rs[k].tag, m)) == MaskedElement(rs[k], m)
    decreases |rs|
  {
    DistinctTail(rs);
    if k == 0 {
      FirstRuleMasks(rs, m);
    } else {
      NamedElementMasked(rs[1..], k - 1, m);
      LaterRuleMasks(rs, k, m);
    }
  }

  /** The first rule rewrites an element of its own tag and the others leave the result alone. */
  lemma FirstRuleMasks(rs: seq<Rule>, m: string)
    requires rs != [] && DistinctTags(rs[1..]) && ValidTag(rs[0].tag) && '<' !in m
    requires forall i :: 0 <= i < |rs[1..]| ==> rs[1..][i].tag != rs[0].tag
    ensures ApplyRules(rs, ElementText(rs[0].tag, m)) == MaskedElement(rs[0], m)
  {
    var r := rs[0];
    OneElementOneRule(r, r.tag, m);
    var m' := if Accepts(r.kind, m) then Masked(r.kind, m) else m;
    ForeignElementKept(rs[1..], r.tag, m');
  }

  /** An element of a later rule's tag passes the first rule unchanged. */
  lemma LaterRuleMasks(rs: seq<Rule>, k: nat, m: string)
    requires DistinctTags(rs) && 0 < k < |rs| && '<' !in m
    requires ApplyRules(rs[1..], ElementText(rs[1..][k - 1].tag, m)) == MaskedElement(rs[1..][k - 1], m)
    ensures ApplyRules(rs, ElementText(rs[k].tag, m)) == MaskedElement(rs[k], m)
  {
    assert rs[1..][k - 1] == rs[k];
    assert rs[0].tag != rs[k].tag;
    OneElementOneRule(rs[0], rs[k].tag, m);
  }

  /** An element starts at a cut point. */
  lemma ElementIsCut(tag: string, m: string)
    requires ValidTag(tag)
    ensures CutPoint(ElementText(tag, m))
  {
    assert ElementText(tag, m)[1] == tag[0];
  }

  /** Rules with distinct tags mask an element of one of their tags apart from what surrounds it. */
  lemma NamedElementInContext(rs: seq<Rule>, u: string, k: nat, m: string, w: string)
    requires DistinctTags(rs) && k < |rs| && '<' !in m && CutPoint(w)
    ensures ApplyRules(rs, u + ElementText(rs[k].tag, m) + w)
         == ApplyRules(rs, u) + MaskedElement(rs[k], m) + ApplyRules(rs, w)
  {
    var e := ElementText(rs[k].tag, m);
    ElementIsCut(rs[k].tag, m);
    ApplyRulesSplit(rs, u + e, w);
    ApplyRulesSplit(rs, u, e);
    NamedElementMasked(rs, k, m);
  }

  /** Rules with distinct tags leave an element of another tag alone, whatever surrounds it. */
  lemma ForeignElementInContext(rs: seq<Rule>, u: string, tag: string, m: string, w: string)
    requires DistinctTags(rs) && ValidTag(tag) && '<' !in m && CutPoint(w)
    requires forall i :: 0 <= i < |rs| ==> rs[i].tag != tag
    ensures ApplyRules(rs, u + ElementText(tag, m) + w)
         == ApplyRules(rs, u) + ElementText(tag, m) + ApplyRules(rs, w)
  {
    var e := ElementText(tag, m);
    ElementIsCut(tag, m);
    ApplyRulesSplit(rs, u + e, w);
    ApplyRulesSplit(rs, u, e);
    ForeignElementKept(rs, tag, m);
  }

  /**
   * maskPII on a payload holding an element named by the rules: the element is
   * masked by its own rule, and the text before it and the markup after it are
   * masked apart from it.
   */
  lemma MaskOneElement(u: string, k: nat, m: string, w: string)
    requires k < |Rules| && '<' !in m && CutPoint(w)
    ensures MaskPII(Some(u + ElementText(Rules[k].tag, m) + w))
         == Some(ApplyRules(Rules, u) + MaskedElement(Rules[k], m) + ApplyRules(Rules, w))
  {
    RulesAreDistinct();
    NamedElementInContext(Rules, u, k, m, w);
  }

  /**
   * A namespace-prefixed element (such as xmeld:name) is not a bare element the
   * rules name: it comes out of maskPII unchanged wherever it stands.
   */
  lemma PrefixedElementKept(u: string, tag: string, m: string, w: string)
    requires ValidTag(tag) && ':' in tag && '<' !in m && CutPoint(w)
    ensures MaskPII(Some(u + ElementText(tag, m) + w))
         == Some(ApplyRules(Rules, u) + ElementText(tag, m) + ApplyRules(Rules, w))
  {
    RulesAreDistinct();
    forall i | 0 <= i < |Rules| ensures Rules[i].tag != tag {
      RuleTagIsLetters(i);
    }
    ForeignElementInContext(Rules, u, tag, m, w);
  }
}
