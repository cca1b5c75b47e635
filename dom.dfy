/**
 * The part of the W3C DOM the XMeld decoder relies on: a namespace-aware
 * element tree, getElementsByTagNameNS and getTextContent.
 */
module Dom {
  import opened Wrappers

  /** An element (namespace URI, "" when it has none; local name; children) or a text node. */
  datatype Node =
    | Element(ns: string, local: string, children: seq<Node>)
    | Text(data: string)

  /** The proper descendants of a node, in document order (pre-order). */
  function Descendants(n: Node): seq<Node>
    decreases n
  {
    match n
    case Text(_) => []
    case Element(_, _, kids) => Forest(kids)
  }

  /** The nodes of a sequence of sibling trees, each followed by its descendants. */
  function Forest(cs: seq<Node>): seq<Node>
    decreases cs
  {
    if cs == [] then [] else [cs[0]] + Descendants(cs[0]) + Forest(cs[1..])
  }

  /** The name pattern of getElementsByTagNameNS: "*" or one namespace URI. */
  datatype NsPattern = AnyNs | Exactly(uri: string)

  /** Whether a node is an element with this local name in a namespace the pattern admits. */
  predicate Named(x: Node, pat: NsPattern, local: string)
  {
    x.Element? && x.local == local && (pat.AnyNs? || x.ns == pat.uri)
  }

  /** The nodes of xs that are elements with the given name, in their order in xs. */
  function Filter(xs: seq<Node>, pat: NsPattern, local: string): (r: seq<Node>)
    ensures |r| <= |xs|
    ensures forall y :: y in r <==> y in xs && Named(y, pat, local)
  {
    if xs == [] then []
    else if Named(xs[0], pat, local) then [xs[0]] + Filter(xs[1..], pat, local)
    else Filter(xs[1..], pat, local)
  }

  /** Element.getElementsByTagNameNS: matching proper descendants. */
  function ElementsByTagNameNS(n: Node, pat: NsPattern, local: string): seq<Node>
  {
    Filter(Descendants(n), pat, local)
  }

  /** Document.getElementsByTagNameNS: the document element itself takes part. */
  function DocumentElementsByTagNameNS(root: Node, pat: NsPattern, local: string): seq<Node>
  {
    Filter([root] + Descendants(root), pat, local)
  }

  /** Filtering a concatenation filters each part. */
  lemma {:induction false} FilterAppend(a: seq<Node>, b: seq<Node>, pat: NsPattern, local: string)
    ensures Filter(a + b, pat, local) == Filter(a, pat, local) + Filter(b, pat, local)
    decreases |a|
  {
    if a != [] {
      assert (a + b)[0] == a[0];
      assert (a + b)[1..] == a[1..] + b;
      FilterAppend(a[1..], b, pat, local);
    } else {
      assert a + b == b;
    }
  }

  /** item(0) of a node list: the first match, if any. */
  function First(xs: seq<Node>, pat: NsPattern, local: string): Option<Node>
  {
    var r := Filter(xs, pat, local);
    if r == [] then None else Some(r[0])
  }

  /** The first match is the match at the least matching position. */
  lemma {:induction false} FirstIsLeftmost(xs: seq<Node>, pat: NsPattern, local: string)
    ensures First(xs, pat, local).None? <==> forall k :: 0 <= k < |xs| ==> !Named(xs[k], pat, local)
    ensures First(xs, pat, local).Some? ==>
      exists k :: 0 <= k < |xs| && xs[k] == First(xs, pat, local).value && Named(xs[k], pat, local) &&
        forall j :: 0 <= j < k ==> !Named(xs[j], pat, local)
    decreases |xs|
  {
    if xs != [] && !Named(xs[0], pat, local) {
      FirstIsLeftmost(xs[1..], pat, local);
      assert First(xs, pat, local) == First(xs[1..], pat, local);
      if First(xs, pat, local).Some? {
        var k :| 0 <= k < |xs[1..]| && xs[1..][k] == First(xs, pat, local).value && Named(xs[1..][k], pat, local) &&
          forall j :: 0 <= j < k ==> !Named(xs[1..][j], pat, local);
        assert xs[k + 1] == xs[1..][k];
        assert forall j :: 0 <= j < k + 1 ==> !Named(xs[j], pat, local) by {
          forall j | 0 < j < k + 1 ensures !Named(xs[j], pat, local) {
            assert xs[j] == xs[1..][j - 1];
          }
        }
      } else {
        forall k | 0 < k < |xs| ensures !Named(xs[k], pat, local) {
          assert xs[k] == xs[1..][k - 1];
        }
      }
    } else if xs != [] {
      assert xs[0] in xs;
    }
  }

  /** getTextContent: the text of all descendant text nodes, in document order. */
  function TextContent(n: Node): string
    decreases n
  {
    match n
    case Text(d) => d
    case Element(_, _, kids) => ForestText(kids)
  }

  function ForestText(cs: seq<Node>): string
    decreases cs
  {
    if cs == [] then [] else TextContent(cs[0]) + ForestText(cs[1..])
  }

  /** The data of the text nodes among xs, concatenated. */
  function TextsOf(xs: seq<Node>): string
  {
    if xs == [] then []
    else (if xs[0].Text? then xs[0].data else []) + TextsOf(xs[1..])
  }

  lemma {:induction false} TextsOfAppend(a: seq<Node>, b: seq<Node>)
    ensures TextsOf(a + b) == TextsOf(a) + TextsOf(b)
    decreases |a|
  {
    if a != [] {
      assert (a + b)[0] == a[0];
      assert (a + b)[1..] == a[1..] + b;
      TextsOfAppend(a[1..], b);
    } else {
      assert a + b == b;
    }
  }

  /** The text content of an element is the text of its text descendants in document order. */
  lemma {:induction false} TextContentIsDescendantText(n: Node)
    requires n.Element?
    ensures TextContent(n) == TextsOf(Descendants(n))
  {
    ForestTextIsText(n.children);
  }

  lemma {:induction false} ForestTextIsText(cs: seq<Node>)
    ensures ForestText(cs) == TextsOf(Forest(cs))
    decreases cs
  {
    if cs != [] {
      var c := cs[0];
      ForestTextIsText(cs[1..]);
      TextsOfAppend([c] + Descendants(c), Forest(cs[1..]));
      TextsOfAppend([c], Descendants(c));
      match c
      case Text(d) =>
        assert TextsOf([c]) == d;
      case Element(_, _, kids) =>
        ForestTextIsText(kids);
        assert TextsOf([c]) == [];
    }
  }

  /** The matching proper descendants of a node, collected tree by tree. */
  function Collect(n: Node, pat: NsPattern, local: string): seq<Node>
    decreases n
  {
    match n
    case Text(_) => []
    case Element(_, _, kids) => CollectForest(kids, pat, local)
  }

  function CollectForest(cs: seq<Node>, pat: NsPattern, local: string): seq<Node>
    decreases cs
  {
    if cs == [] then []
    else (if Named(cs[0], pat, local) then [cs[0]] else []) + Collect(cs[0], pat, local) + CollectForest(cs[1..], pat, local)
  }

  /** Collecting tree by tree finds the same elements, in the same order, as filtering the descendants. */
  lemma {:induction false} CollectIsFilter(n: Node, pat: NsPattern, local: string)
    ensures Collect(n, pat, local) == ElementsByTagNameNS(n, pat, local)
    decreases n
  {
    match n
    case Text(_) =>
    case Element(_, _, kids) => CollectForestIsFilter(kids, pat, local);
  }

  lemma {:induction false} CollectForestIsFilter(cs: seq<Node>, pat: NsPattern, local: string)
    ensures CollectForest(cs, pat, local) == Filter(Forest(cs), pat, local)
    decreases cs
  {
    if cs != [] {
      var c := cs[0];
      CollectIsFilter(c, pat, local);
      CollectForestIsFilter(cs[1..], pat, local);
      FilterAppend([c] + Descendants(c), Forest(cs[1..]), pat, local);
      FilterAppend([c], Descendants(c), pat, local);
    }
  }

  /** Collecting over siblings of which only the k-th can hold a match. */
  lemma {:induction false} CollectForestOnly(cs: seq<Node>, k: nat, pat: NsPattern, local: string)
    requires k < |cs|
    requires forall i :: 0 <= i < |cs| && i != k ==> !Named(cs[i], pat, local) && Collect(cs[i], pat, local) == []
    ensures CollectForest(cs, pat, local) == (if Named(cs[k], pat, local) then [cs[k]] else []) + Collect(cs[k], pat, local)
    decreases cs
  {
    if k == 0 {
      CollectForestNone(cs[1..], pat, local);
    } else {
      assert forall i :: 0 <= i < |cs[1..]| && i != k - 1 ==> cs[1..][i] == cs[i + 1];
      CollectForestOnly(cs[1..], k - 1, pat, local);
      assert cs[1..][k - 1] == cs[k];
    }
  }

  /** Siblings none of which holds a match. */
  lemma {:induction false} CollectForestNone(cs: seq<Node>, pat: NsPattern, local: string)
    requires forall i :: 0 <= i < |cs| ==> !Named(cs[i], pat, local) && Collect(cs[i], pat, local) == []
    ensures CollectForest(cs, pat, local) == []
    decreases cs
  {
    if cs != [] {
      assert forall i :: 0 <= i < |cs[1..]| ==> cs[1..][i] == cs[i + 1];
      CollectForestNone(cs[1..], pat, local);
    }
  }
}
