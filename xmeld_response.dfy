/**
 * XMeldResponseParser: turns a parsed XMeld 1333 answer into the JSON object
 * handed to the workflow: either the first error message or the list of hits
 * with eight person and address fields each.
 */
module XMeldResponse {
  import opened Wrappers
  import opened Dom
  import opened Errors

  /** The XMeld namespace the hits are looked up in first. */
  const XMeldNs: string := "http://www.osci.de/xmeld2511a"

  /** The org.json values the decoder produces. */
  datatype Json =
    | JString(s: string)
    | JNumber(n: int)
    | JArray(items: seq<Json>)
    | JObject(fields: map<string, Json>)

  /** getTextContent: the text of the first descendant with this local name in any namespace, else "". */
  function GetTextContent(parent: Node, tag: string): string
  {
    match First(Descendants(parent), AnyNs, tag)
    case Some(e) => TextContent(e)
    case None => ""
  }

  /** getNestedValue: getTextContent inside the first descendant named parentTag, else "". */
  function GetNestedValue(parent: Node, parentTag: string, childTag: string): string
  {
    match First(Descendants(parent), AnyNs, parentTag)
    case Some(p) => GetTextContent(p, childTag)
    case None => ""
  }

  /** getDeepValue: the same lookup as getTextContent. */
  function GetDeepValue(parent: Node, tag: string): string
  {
    GetTextContent(parent, tag)
  }

  /** The first element with a local name, found by its position among the descendants. */
  lemma TextContentOfFirst(parent: Node, tag: string)
    ensures (forall k :: 0 <= k < |Descendants(parent)| ==> !Named(Descendants(parent)[k], AnyNs, tag)) ==>
      GetTextContent(parent, tag) == ""
    ensures forall k ::
      (0 <= k < |Descendants(parent)| && Named(Descendants(parent)[k], AnyNs, tag) &&
       (forall j :: 0 <= j < k ==> !Named(Descendants(parent)[j], AnyNs, tag))) ==>
      GetTextContent(parent, tag) == TextsOf(Descendants(Descendants(parent)[k]))
  {
    var d := Descendants(parent);
    FirstIsLeftmost(d, AnyNs, tag);
    forall k | 0 <= k < |d| && Named(d[k], AnyNs, tag) && (forall j :: 0 <= j < k ==> !Named(d[j], AnyNs, tag))
      ensures GetTextContent(parent, tag) == TextsOf(Descendants(d[k]))
    {
      var k' :| 0 <= k' < |d| && d[k'] == First(d, AnyNs, tag).value && Named(d[k'], AnyNs, tag) &&
        forall j :: 0 <= j < k' ==> !Named(d[j], AnyNs, tag);
      assert !(k < k') && !(k' < k);
      TextContentIsDescendantText(d[k]);
    }
  }

  /** One hit: always all eight keys, "" where the document has no value. */
  function Hit(treffer: Node): map<string, Json>
  {
    map[
      "nachname" := JString(GetNestedValue(treffer, "familienname", "name")),
      "vorname" := JString(GetNestedValue(treffer, "vornamen", "name")),
      "strasse" := JString(GetDeepValue(treffer, "strasse")),
      "hausnummer" := JString(GetDeepValue(treffer, "hausnummer")),
      "plz" := JString(GetDeepValue(treffer, "postleitzahl")),
      "ort" := JString(GetDeepValue(treffer, "ort")),
      "ags" := JString(GetDeepValue(treffer, "gemeindeschluessel")),
      "wohnungStatus" := JString(GetDeepValue(treffer, "statusWohnung"))
    ]
  }

  const HitKeys: set<string> := {"nachname", "vorname", "strasse", "hausnummer", "plz", "ort", "ags", "wohnungStatus"}

  /** Every hit has exactly the eight keys, each holding a string. */
  lemma HitHasEightKeys(treffer: Node)
    ensures Hit(treffer).Keys == HitKeys
    ensures forall k :: k in Hit(treffer) ==> Hit(treffer)[k].JString?
  {
  }

  /** The hits, in document order. */
  function HitsJson(nodes: seq<Node>): seq<Json>
  {
    seq(|nodes|, i requires 0 <= i < |nodes| => JObject(Hit(nodes[i])))
  }

  /** The treffer elements: those in the XMeld namespace, or any namespace when there are none. */
  function TrefferNodes(doc: Node): seq<Node>
  {
    var exact := DocumentElementsByTagNameNS(doc, Exactly(XMeldNs), "treffer");
    if |exact| == 0 then DocumentElementsByTagNameNS(doc, AnyNs, "treffer") else exact
  }

  /** The error answer built from the first fehlermeldung element. */
  function ErrorJson(fehlermeldung: Node): Json
  {
    JObject(map[
      "status" := JString("ERROR"),
      "error" := JObject(map[
        "code" := JString(GetTextContent(fehlermeldung, "code")),
        "message" := JString(GetTextContent(fehlermeldung, "text"))])])
  }

  /** The success answer; rawXml is the input text. */
  function SuccessJson(input: string, hits: seq<Node>): Json
  {
    JObject(map[
      "status" := JString("SUCCESS"),
      "trefferAnzahl" := JNumber(|hits|),
      "treffer" := JArray(HitsJson(hits)),
      "rawXml" := JString(input)])
  }

  /**
   * What parseResponse yields for an input and its parse (None when the DOM
   * parser rejects it).
   */
  function Decode(input: string, parsed: Option<Node>): Result<Json, ConnectorError>
  {
    match parsed
    case None => Failure(ParseError)
    case Some(doc) =>
      match First([doc] + Descendants(doc), AnyNs, "fehlermeldung")
      case Some(e) => Success(ErrorJson(e))
      case None => Success(SuccessJson(input, TrefferNodes(doc)))
  }

  /** parseResponse: successive puts into the result object, one hit object per treffer element. */
  method ParseResponse(input: string, parsed: Option<Node>) returns (r: Result<Json, ConnectorError>)
    ensures r == Decode(input, parsed)
  {
    if parsed.None? {
      return Failure(ParseError);
    }
    var doc := parsed.value;
    var result: map<string, Json> := map[];
    var errorNodes := DocumentElementsByTagNameNS(doc, AnyNs, "fehlermeldung");
    if |errorNodes| > 0 {
      result := result["status" := JString("ERROR")];
      var errorElement := errorNodes[0];
      var code := GetTextContent(errorElement, "code");
      var text := GetTextContent(errorElement, "text");
      var errorObj: map<string, Json> := map[];
      errorObj := errorObj["code" := JString(code)];
      errorObj := errorObj["message" := JString(text)];
      result := result["error" := JObject(errorObj)];
      return Success(JObject(result));
    }
    result := result["status" := JString("SUCCESS")];
    var trefferNodes := DocumentElementsByTagNameNS(doc, Exactly(XMeldNs), "treffer");
    if |trefferNodes| == 0 {
      trefferNodes := DocumentElementsByTagNameNS(doc, AnyNs, "treffer");
    }
    result := result["trefferAnzahl" := JNumber(|trefferNodes|)];
    var hitsArray: seq<Json> := [];
    for i := 0 to |trefferNodes|
      invariant |hitsArray| == i
      invariant forall k :: 0 <= k < i ==> hitsArray[k] == JObject(Hit(trefferNodes[k]))
    {
      var treffer := trefferNodes[i];
      var hitObj: map<string, Json> := map[];
      hitObj := hitObj["nachname" := JString(GetNestedValue(treffer, "familienname", "name"))];
      hitObj := hitObj["vorname" := JString(GetNestedValue(treffer, "vornamen", "name"))];
      hitObj := hitObj["strasse" := JString(GetDeepValue(treffer, "strasse"))];
      hitObj := hitObj["hausnummer" := JString(GetDeepValue(treffer, "hausnummer"))];
      hitObj := hitObj["plz" := JString(GetDeepValue(treffer, "postleitzahl"))];
      hitObj := hitObj["ort" := JString(GetDeepValue(treffer, "ort"))];
      hitObj := hitObj["ags" := JString(GetDeepValue(treffer, "gemeindeschluessel"))];
      hitObj := hitObj["wohnungStatus" := JString(GetDeepValue(treffer, "statusWohnung"))];
      hitsArray := hitsArray + [JObject(hitObj)];
    }
    assert hitsArray == HitsJson(trefferNodes);
    result := result["treffer" := JArray(hitsArray)];
    result := result["rawXml" := JString(input)];
    r := Success(JObject(result));
  }

  // ---------------------------------------------------------------------------
  // Properties of the decoder

  /** An element named fehlermeldung anywhere in the document. */
  predicate HasFehlermeldung(doc: Node)
  {
    exists k :: 0 <= k < |[doc] + Descendants(doc)| && Named(([doc] + Descendants(doc))[k], AnyNs, "fehlermeldung")
  }

  /** A parse failure is PARSE_ERR; a parsed document always gives an object. */
  lemma ParseFailureOnly(input: string, parsed: Option<Node>)
    ensures Decode(input, parsed).Failure? <==> parsed.None?
    ensures Decode(input, parsed).Failure? ==> Decode(input, parsed).error.Code() == "PARSE_ERR"
    ensures Decode(input, parsed).Success? ==> Decode(input, parsed).value.JObject?
  {
  }

  /** The answer is ERROR exactly when some element is named fehlermeldung. */
  lemma ErrorIffFehlermeldung(input: string, doc: Node)
    ensures Decode(input, Some(doc)).value.fields["status"] == JString("ERROR") <==> HasFehlermeldung(doc)
  {
    FirstIsLeftmost([doc] + Descendants(doc), AnyNs, "fehlermeldung");
  }

  /**
   * An ERROR answer holds only status and error, with the code and message of the
   * first fehlermeldung element in document order.
   */
  lemma ErrorAnswer(input: string, doc: Node, k: nat)
    requires k < |[doc] + Descendants(doc)|
    requires Named(([doc] + Descendants(doc))[k], AnyNs, "fehlermeldung")
    requires forall j :: 0 <= j < k ==> !Named(([doc] + Descendants(doc))[j], AnyNs, "fehlermeldung")
    ensures var r := Decode(input, Some(doc)).value;
      var e := ([doc] + Descendants(doc))[k];
      r.fields.Keys == {"status", "error"} &&
      r.fields["error"] == JObject(map[
        "code" := JString(GetTextContent(e, "code")),
        "message" := JString(GetTextContent(e, "text"))])
  {
    var all := [doc] + Descendants(doc);
    FirstIsLeftmost(all, AnyNs, "fehlermeldung");
    var k' :| 0 <= k' < |all| && all[k'] == First(all, AnyNs, "fehlermeldung").value &&
      Named(all[k'], AnyNs, "fehlermeldung") && forall j :: 0 <= j < k' ==> !Named(all[j], AnyNs, "fehlermeldung");
    assert !(k < k') && !(k' < k);
    assert Decode(input, Some(doc)) == Success(ErrorJson(all[k]));
  }

  /**
   * Without an error element the answer is SUCCESS with exactly four keys; the count,
   * the array length and the number of treffer elements agree, and rawXml is the input.
   */
  lemma SuccessAnswer(input: string, doc: Node)
    requires !HasFehlermeldung(doc)
    ensures var r := Decode(input, Some(doc)).value;
      r.fields.Keys == {"status", "trefferAnzahl", "treffer", "rawXml"} &&
      r.fields["status"] == JString("SUCCESS") &&
      r.fields["rawXml"] == JString(input) &&
      r.fields["treffer"].JArray? &&
      r.fields["trefferAnzahl"] == JNumber(|r.fields["treffer"].items|) &&
      |r.fields["treffer"].items| == |TrefferNodes(doc)|
    ensures var items := Decode(input, Some(doc)).value.fields["treffer"].items;
      forall i :: 0 <= i < |items| ==> items[i] == JObject(Hit(TrefferNodes(doc)[i]))
  {
    ErrorIffFehlermeldung(input, doc);
  }

  /**
   * Hits are the treffer elements of the XMeld namespace in document order; treffer
   * elements of other namespaces count only when there is none in the XMeld namespace.
   */
  lemma TrefferSelection(doc: Node)
    ensures var all := [doc] + Descendants(doc);
      forall t :: t in TrefferNodes(doc) ==> t in all && Named(t, AnyNs, "treffer")
    ensures var all := [doc] + Descendants(doc);
      (exists k :: 0 <= k < |all| && Named(all[k], Exactly(XMeldNs), "treffer")) ==>
        TrefferNodes(doc) == Filter(all, Exactly(XMeldNs), "treffer") &&
        forall t :: t in TrefferNodes(doc) ==> t.ns == XMeldNs
    ensures var all := [doc] + Descendants(doc);
      (forall k :: 0 <= k < |all| ==> !Named(all[k], Exactly(XMeldNs), "treffer")) ==>
        TrefferNodes(doc) == Filter(all, AnyNs, "treffer")
  {
    var all := [doc] + Descendants(doc);
    var exact := Filter(all, Exactly(XMeldNs), "treffer");
    if exists k :: 0 <= k < |all| && Named(all[k], Exactly(XMeldNs), "treffer") {
      var k :| 0 <= k < |all| && Named(all[k], Exactly(XMeldNs), "treffer");
      assert all[k] in exact;
    } else {
      FirstIsLeftmost(all, Exactly(XMeldNs), "treffer");
    }
  }

  /** A document without any treffer element gives SUCCESS, 0 and an empty array. */
  lemma NoHits(input: string, doc: Node)
    requires !HasFehlermeldung(doc)
    requires forall k :: 0 <= k < |[doc] + Descendants(doc)| ==> !Named(([doc] + Descendants(doc))[k], AnyNs, "treffer")
    ensures Decode(input, Some(doc)) == Success(SuccessJson(input, []))
    ensures SuccessJson(input, []).fields["trefferAnzahl"] == JNumber(0)
    ensures SuccessJson(input, []).fields["treffer"] == JArray([])
  {
    var all := [doc] + Descendants(doc);
    ErrorIffFehlermeldung(input, doc);
    TrefferSelection(doc);
    FirstIsLeftmost(all, AnyNs, "treffer");
    assert forall k :: 0 <= k < |all| ==> !Named(all[k], Exactly(XMeldNs), "treffer");
  }
}
