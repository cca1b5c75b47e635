/**
 * BayBisSoapClient: wraps an XMeld request, Base64-encoded, in a SOAP 1.1
 * envelope (operation callApplicationByte), posts it to the BayBIS endpoint
 * and turns the HTTP reply into the decoded XMeld response or an error code.
 */
module SoapClient {
  import opened Wrappers
  import opened Markup
  import Base64
  import opened Errors

  /** The BayBIS integration endpoint used when none is configured. */
  const DefaultEndpoint: string := "https://apk-int.akdb.de/okkommbis/services/XoevService"

  const ContentType: string := "text/xml; charset=utf-8"
  /** The SOAPAction header is an empty quoted string. */
  const SoapAction: string := "\"\""

  const PayloadTag: string := "tns:xmlParameter"
  const ReturnTag: string := "callApplicationByteReturn"

  /** The envelope up to the payload element. */
  const EnvelopeProlog: string :=
    "<?xml version=\"1.0\" encoding=\"UTF-8\"?>" +
    "<soapenv:Envelope xmlns:soapenv=\"http://schemas.xmlsoap.org/soap/envelope/\" xmlns:tns=\"urn:akdb:ok.komm:xmeld-service\">" +
    "<soapenv:Header/>" +
    "<soapenv:Body>" +
    "<tns:callApplicationByte>"

  /** The envelope after the payload element. */
  const EnvelopeEpilog: string :=
    "</tns:callApplicationByte>" +
    "</soapenv:Body>" +
    "</soapenv:Envelope>"

  /** Everything in the envelope before the Base64 payload. */
  const EnvelopeHead: string := EnvelopeProlog + Open(PayloadTag)

  /** Everything in the envelope after the Base64 payload. */
  const EnvelopeTail: string := Close(PayloadTag) + EnvelopeEpilog

  /** createSoapEnvelope: the payload between the fixed head and tail. */
  function CreateSoapEnvelope(payload: string): (env: string)
    ensures |env| == |EnvelopeHead| + |payload| + |EnvelopeTail|
    ensures EnvelopeHead <= env && env[|EnvelopeHead|..|EnvelopeHead| + |payload|] == payload
  {
    EnvelopeHead + payload + EnvelopeTail
  }

  /** The payload of an envelope, as the service reads it back. */
  function EnvelopePayload(env: string): Option<string>
  {
    if |env| >= |EnvelopeHead| + |EnvelopeTail| && EnvelopeHead <= env
       && env[|env| - |EnvelopeTail|..] == EnvelopeTail
    then Some(env[|EnvelopeHead|..|env| - |EnvelopeTail|])
    else None
  }

  lemma {:induction false} FramedRoundTrip(head: string, payload: string, tail: string, env: string)
    ensures var e := head + payload + tail;
      |e| >= |head| + |tail| && head <= e && e[|e| - |tail|..] == tail && e[|head|..|e| - |tail|] == payload
    ensures |env| >= |head| + |tail| && head <= env && env[|env| - |tail|..] == tail ==>
      head + env[|head|..|env| - |tail|] + tail == env
  {
    var e := head + payload + tail;
    assert e[|e| - |tail|..] == tail;
    assert e[|head|..|e| - |tail|] == payload;
    if |env| >= |head| + |tail| && head <= env && env[|env| - |tail|..] == tail {
      assert env == env[..|head|] + env[|head|..|env| - |tail|] + env[|env| - |tail|..];
    }
  }

  /** The envelope carries exactly its payload, and every envelope is built from its payload. */
  lemma EnvelopeRoundTrip(payload: string, env: string)
    ensures EnvelopePayload(CreateSoapEnvelope(payload)) == Some(payload)
    ensures EnvelopePayload(env) == Some(payload) ==> CreateSoapEnvelope(payload) == env
  {
    FramedRoundTrip(EnvelopeHead, payload, EnvelopeTail, env);
  }

  /** An element spliced between two texts is found where it starts. */
  lemma SplicedElement(pre: string, tag: string, c: string, post: string)
    requires ValidTag(tag) && '<' !in c
    ensures TaggedText(tag, ((pre + Open(tag)) + c + (Close(tag) + post))[|pre|..]) == Some(c)
  {
    var s := (pre + Open(tag)) + c + (Close(tag) + post);
    assert s[|pre|..] == Open(tag) + c + Close(tag) + post;
    TaggedTextOf(tag, c, post);
  }

  /** The payload element of the envelope holds the payload, when it is markup-free text such as Base64. */
  lemma PayloadElement(payload: string)
    requires '<' !in payload
    ensures TaggedText(PayloadTag, CreateSoapEnvelope(payload)[|EnvelopeProlog|..]) == Some(payload)
  {
    assert ValidTag(PayloadTag);
    SplicedElement(EnvelopeProlog, PayloadTag, payload, EnvelopeEpilog);
  }

  /** The request sent over the wire. */
  lemma RequestCarriesXml(xml: seq<Base64.byte>)
    ensures var env := CreateSoapEnvelope(Base64.Encode(xml));
      EnvelopePayload(env).Some? && Base64.Decode(EnvelopePayload(env).value) == Some(xml)
  {
    EnvelopeRoundTrip(Base64.Encode(xml), CreateSoapEnvelope(Base64.Encode(xml)));
    Base64.RoundTrip(xml);
  }

  // ---------------------------------------------------------------------------
  // extractBase64Response

  /** The return element's text when "<callApplicationByteReturn>([^<]+)</callApplicationByteReturn>" matches at position p. */
  function ReturnAt(body: string, p: nat): (r: Option<string>)
    requires p <= |body|
    ensures r.Some? ==> r.value != [] && '<' !in r.value
  {
    match TaggedText(ReturnTag, body[p..])
    case Some(c) => if c != [] then Some(c) else None
    case None => None
  }

  /** Matcher.find from position p: the first position at or after p where the pattern matches. */
  function FindReturn(body: string, p: nat): (r: Option<nat>)
    requires p <= |body|
    ensures r.Some? ==> p <= r.value <= |body| && ReturnAt(body, r.value).Some?
    ensures r.Some? ==> forall q :: p <= q < r.value ==> ReturnAt(body, q).None?
    ensures r.None? ==> forall q :: p <= q <= |body| ==> ReturnAt(body, q).None?
    decreases |body| - p
  {
    if ReturnAt(body, p).Some? then Some(p)
    else if p == |body| then None
    else FindReturn(body, p + 1)
  }

  /** extractBase64Response: group 1 of the leftmost match, or no match (INVALID_RESP). */
  function ExtractBase64Response(body: string): (r: Option<string>)
    ensures r.Some? ==> r.value != [] && '<' !in r.value
  {
    match FindReturn(body, 0)
    case Some(p) => ReturnAt(body, p)
    case None => None
  }

  /** The extracted text is the leftmost non-empty return element, and one is found whenever one exists. */
  lemma ExtractIsLeftmost(body: string)
    ensures ExtractBase64Response(body).Some? <==> exists p :: 0 <= p <= |body| && ReturnAt(body, p).Some?
    ensures ExtractBase64Response(body).Some? ==>
      exists p :: 0 <= p <= |body| && ReturnAt(body, p) == ExtractBase64Response(body) &&
        forall q :: 0 <= q < p ==> ReturnAt(body, q).None?
  {
    match FindReturn(body, 0)
    case Some(p) =>
      assert ReturnAt(body, p) == ExtractBase64Response(body);
    case None =>
  }

  /** A body that is just the return element yields its text. */
  lemma ExtractSingleReturn(c: string)
    requires c != [] && '<' !in c
    ensures ExtractBase64Response(Open(ReturnTag) + c + Close(ReturnTag)) == Some(c)
  {
    var body := Open(ReturnTag) + c + Close(ReturnTag);
    assert body + [] == body;
    TaggedTextOf(ReturnTag, c, []);
    assert body[0..] == body;
  }

  // ---------------------------------------------------------------------------
  // Classifying the reply

  /** The fault test: the body mentions a (possibly prefixed) Fault element. */
  predicate IsSoapFault(body: string)
  {
    Contains(body, ":Fault>") || Contains(body, "<Fault>")
  }

  /** What the HTTP exchange produced. */
  datatype Exchange =
    | Reply(status: int, body: string)
    | IoFailure           // httpClient.send threw an IOException (or the URI was malformed)
    | InterruptedExchange // the calling thread was interrupted while waiting

  /** The outcome of sendRequest for a given exchange, in the order the checks are made. */
  function Classify(x: Exchange): (r: Result<seq<Base64.byte>, ConnectorError>)
    ensures r.Success? ==>
              x.Reply? && x.status == 200 && !IsSoapFault(x.body) && ExtractBase64Response(x.body).Some? &&
              Base64.Decode(ExtractBase64Response(x.body).value) == Some(r.value)
  {
    match x
    case InterruptedExchange => Failure(Interrupted)
    case IoFailure => Failure(InternalError)
    case Reply(status, body) =>
      if status != 200 then Failure(HttpError(status))
      else if IsSoapFault(body) then Failure(SoapFault)
      else match ExtractBase64Response(body)
        case None => Failure(InvalidResponse)
        case Some(b64) =>
          match Base64.Decode(b64)
          case None => Failure(InternalError)
          case Some(bytes) => Success(bytes)
  }

  /** A non-200 status is reported with its number whatever the body holds. */
  lemma StatusDecidesFirst(status: int, body: string)
    requires status != 200
    ensures Classify(Reply(status, body)).Failure?
    ensures Classify(Reply(status, body)).error.Code() == "HTTP_ERR_" + Decimal.IntToString(status)
  {
  }

  /** A fault marker wins over a well-formed return element. */
  lemma FaultBeforeReturn(body: string, b: seq<Base64.byte>)
    requires IsSoapFault(body)
    ensures Classify(Reply(200, body)).Failure? && Classify(Reply(200, body)).error.Code() == "SOAP_FAULT"
    ensures Classify(Reply(200, body + (Open(ReturnTag) + Base64.Encode(b) + Close(ReturnTag)))) == Failure(SoapFault)
  {
    var t := Open(ReturnTag) + Base64.Encode(b) + Close(ReturnTag);
    if Contains(body, ":Fault>") {
      ContainsAppend(body, t, ":Fault>");
    } else {
      ContainsAppend(body, t, "<Fault>");
    }
    assert IsSoapFault(body + t);
  }

  lemma {:induction false} ContainsAppend(s: string, t: string, p: string)
    requires Contains(s, p)
    ensures Contains(s + t, p)
  {
    if !(p <= s) {
      assert s != [] && Contains(s[1..], p);
      ContainsAppend(s[1..], t, p);
      assert (s + t)[1..] == s[1..] + t;
    }
  }

  /** Neither fault marker occurs in an unprefixed element holding markup-free text without ':'. */
  lemma ElementIsNoFault(tag: string, c: string)
    requires ValidTag(tag) && tag[0] != 'F' && ':' !in tag
    requires '<' !in c && ':' !in c
    ensures !IsSoapFault(Open(tag) + c + Close(tag))
  {
    var a := tag + ">" + c;
    var b := "/" + tag + ">";
    var body := Open(tag) + c + Close(tag);
    assert body == "<" + a + ("<" + b);
    assert ':' !in body;
    NotContainsWithoutHead(body, ":Fault>");
    var p := "<Fault>";
    assert !(p <= body) by { assert body[1] == tag[0] != p[1]; }
    assert body[1..] == a + ("<" + b);
    assert '<' !in a;
    ContainsSkip(a, "<" + b, p);
    var lb := "<" + b;
    assert !(p <= lb) by { assert lb[1] == '/' != p[1]; }
    assert lb[1..] == b;
    assert '<' !in b;
    NotContainsWithoutHead(b, p);
  }

  lemma ReturnTagIsPlain()
    ensures ValidTag(ReturnTag) && ReturnTag[0] != 'F' && ':' !in ReturnTag
  {
    var t := ReturnTag;
    assert forall k :: 0 <= k < |t| ==> 'a' <= t[k] <= 'z' || 'A' <= t[k] <= 'Z';
  }

  /** End to end: a reply carrying the encoding of a non-empty payload yields that payload. */
  lemma ResponseRoundTrip(b: seq<Base64.byte>)
    requires b != []
    ensures Classify(Reply(200, Open(ReturnTag) + Base64.Encode(b) + Close(ReturnTag))) == Success(b)
  {
    var c := Base64.Encode(b);
    Base64.EncodedIsPlainText(b);
    ReturnTagIsPlain();
    ElementIsNoFault(ReturnTag, c);
    ExtractSingleReturn(c);
    Base64.RoundTrip(b);
  }

  /** A return element whose text the decoder rejects ends in INTERNAL_ERR. */
  lemma UndecodableIsInternal(c: string)
    requires c != [] && '<' !in c && ':' !in c && Base64.Decode(c).None?
    ensures Classify(Reply(200, Open(ReturnTag) + c + Close(ReturnTag))) == Failure(InternalError)
  {
    ReturnTagIsPlain();
    ElementIsNoFault(ReturnTag, c);
    ExtractSingleReturn(c);
  }

  /** A dangling character and a pad in the middle are such texts. */
  lemma BadBase64IsInternal()
    ensures Classify(Reply(200, Open(ReturnTag) + "A" + Close(ReturnTag))) == Failure(InternalError)
    ensures Classify(Reply(200, Open(ReturnTag) + "AB=C" + Close(ReturnTag))) == Failure(InternalError)
  {
    Base64.DecodeRejects();
    UndecodableIsInternal("A");
    UndecodableIsInternal("AB=C");
  }

  /** An element with no text yields no match for [^<]+, wherever one looks. */
  lemma EmptyElementHasNoText(tag: string, p: nat)
    requires ValidTag(tag) && p <= |Open(tag) + Close(tag)|
    ensures match TaggedText(tag, (Open(tag) + Close(tag))[p..])
      case Some(c) => c == []
      case None => true
  {
    var body := Open(tag) + Close(tag);
    if p == 0 {
      TaggedTextOf(tag, [], []);
      assert body[0..] == Open(tag) + [] + Close(tag) + [];
    }
  }

  /** An empty payload encodes to an empty element, which the pattern [^<]+ does not accept. */
  lemma EmptyResponseIsInvalid()
    ensures Classify(Reply(200, Open(ReturnTag) + Close(ReturnTag))) == Failure(InvalidResponse)
  {
    var body := Open(ReturnTag) + Close(ReturnTag);
    ReturnTagIsPlain();
    ElementIsNoFault(ReturnTag, []);
    assert body == Open(ReturnTag) + [] + Close(ReturnTag);
    forall p | 0 <= p <= |body| ensures ReturnAt(body, p).None? {
      EmptyElementHasNoText(ReturnTag, p);
    }
    ExtractIsLeftmost(body);
  }

  /** The HTTP request sendRequest builds. */
  datatype HttpRequest = HttpRequest(uri: string, contentType: string, soapAction: string, body: string)

  class BayBisSoapClient {
    /** The endpoint, fixed at construction. */
    const endpointUrl: string

    /** A missing endpoint falls back to the default one. */
    constructor(url: Option<string>)
      ensures endpointUrl == if url.Some? then url.value else DefaultEndpoint
    {
      endpointUrl := if url.Some? then url.value else DefaultEndpoint;
    }

    /**
     * sendRequest: builds the POST request for the XMeld bytes, then reads the
     * reply of the exchange (given here as a parameter) and checks it step by step.
     */
    method SendRequest(xml: seq<Base64.byte>, reply: Exchange)
      returns (request: HttpRequest, result: Result<seq<Base64.byte>, ConnectorError>)
      ensures request == HttpRequest(endpointUrl, ContentType, SoapAction, CreateSoapEnvelope(Base64.Encode(xml)))
      ensures result == Classify(reply)
    {
      var payload := Base64.Encode(xml);
      var envelope := CreateSoapEnvelope(payload);
      request := HttpRequest(endpointUrl, ContentType, SoapAction, envelope);
      if reply.InterruptedExchange? {
        return request, Failure(Interrupted);
      }
      if reply.IoFailure? {
        return request, Failure(InternalError);
      }
      var status := reply.status;
      if status != 200 {
        return request, Failure(HttpError(status));
      }
      var body := reply.body;
      if IsSoapFault(body) {
        return request, Failure(SoapFault);
      }
      var extracted := ExtractBase64Response(body);
      if extracted.None? {
        return request, Failure(InvalidResponse);
      }
      var decoded := Base64.Decode(extracted.value);
      if decoded.None? {
        return request, Failure(InternalError);
      }
      result := Success(decoded.value);
    }
  }
}
