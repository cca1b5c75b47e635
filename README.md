# BayBIS connector: a verified model

The formcycle BayBIS connector sends XMeld 1332 "free search" requests to the
Bavarian registration service BayBIS and reads back XMeld 1333 answers. This
project models its core in Dafny and proves properties of that model. The
core has three parts:

- **BayBisSoapClient** has several jobs:
  - it Base64-encodes the request;
  - it wraps the request in a SOAP envelope for the `callApplicationByte` operation;
  - it classifies the HTTP reply: non-200 status, SOAP fault, missing return element, undecodable Base64, success;
  - it extracts the `callApplicationByteReturn` text with its regular expression;
  - it masks personal data for the log with nine `replaceAll` calls (`maskPII`).
- **XMeldResponseParser** turns the parsed 1333 document into the JSON answer:
  - an `ERROR` answer from the first `fehlermeldung` element;
  - or a `SUCCESS` answer with one hit per `treffer` element, eight fields each;
  - it uses the `getTextContent`, `getNestedValue` and `getDeepValue` lookups.
- **BayBisTestServlet** builds the 1332 request from the search form:
  - `hasAddress` decides whether the address block is written;
  - `buildXMeldRequest` writes the request line by line into a StringBuilder;
  - `escapeXml` escapes the names and address fields.

Modules:

| file | module | what it holds |
|---|---|---|
| `wrappers.dfy` | `Wrappers` | `Option` and `Result` |
| `errors.dfy` | `Decimal` | `Integer.toString` and its inverse |
| `errors.dfy` | `Errors` | the error codes of `BayBisConnectorException` |
| `base64.dfy` | `Base64` | the basic Base64 encoder and decoder of `java.util.Base64` (RFC 4648, section 4) |
| `markup.dfy` | `Markup` | open and close tags, and the `(<tag>)([^<]…)(</tag>)` scanner that the extraction and every masking pattern share |
| `soap_client.dfy` | `SoapClient` | the envelope, the extraction, the classification of a reply, and the client class with `SendRequest` |
| `pii_mask.dfy` | `PiiMask` | the nine masking rules and `replaceAll` |
| `dom.dfy` | `Dom` | a DOM tree, document order, `getElementsByTagNameNS`, `item(0)` and `getTextContent` |
| `xmeld_response.dfy` | `XMeldResponse` | `parseResponse` as a specification function (`Decode`) and as a method with the source's loop |
| `xmeld_sample.dfy` | `XMeldSample` | the sample 1333 answer of the connector test and the answer decoded from it |
| `xml_escape.dfy` | `XmlEscape` | `escapeXml` and its inverse |
| `test_servlet.dfy` | `TestServlet` | `hasAddress`, the request text, the `BuildXMeldRequest` method, and readers that recover the search from the request |

Some parts of the source become parameters:

- The HTTP exchange becomes a `SoapClient.Exchange` value passed to `SendRequest`: a reply with status and body, an I/O failure, or an interrupt.
- The DOM parser's result is an `Option<Node>` passed to `ParseResponse`; `None` means the parser threw.
- The message UUID and the creation timestamp are parameters of `BuildXMeldRequest`.

## Model

| member | source | states |
|---|---|---|
| Decimal.NatToString | src/main/java/de/formcycle/baybis/BayBisSoapClient.java:78 | the decimal text of a non-negative status is non-empty, all digits, without a leading zero |
| Decimal.NatRoundTrip | src/main/java/de/formcycle/baybis/BayBisSoapClient.java:78 | the digits of a non-negative number read back as that number |
| Decimal.IntRoundTrip | src/main/java/de/formcycle/baybis/BayBisSoapClient.java:78 | the text of any status code, sign included, reads back as that status |
| Decimal.IntToStringInjective | src/main/java/de/formcycle/baybis/BayBisSoapClient.java:78 | different status codes give different texts |
| Errors.CodeInjective | src/main/java/de/formcycle/baybis/BayBisSoapClient.java:76-111 | the error codes are unambiguous: HTTP_ERR_<status>, SOAP_FAULT, INVALID_RESP, INTERRUPTED, INTERNAL_ERR and PARSE_ERR each determine the error, HTTP status included |
| Base64.CharOf | src/main/java/de/formcycle/baybis/BayBisSoapClient.java:55 | every 6-bit value maps to an alphabet character |
| Base64.ValueOf | src/main/java/de/formcycle/baybis/BayBisSoapClient.java:94 | reading an alphabet character is the inverse of the table |
| Base64.ValueOfCharOf | src/main/java/de/formcycle/baybis/BayBisSoapClient.java:55-94 | table, then reading back, gives the value back |
| Base64.Encode | src/main/java/de/formcycle/baybis/BayBisSoapClient.java:55 | the encoding has 4·⌈n/3⌉ characters, all of them alphabet or pad characters |
| Base64.QuantumRoundTrip | src/main/java/de/formcycle/baybis/BayBisSoapClient.java:55-94 | three octets encode to four alphabet characters that decode back to them |
| Base64.DecodeOnePadded | src/main/java/de/formcycle/baybis/BayBisSoapClient.java:94 | the decoder accepts a final unit "XX==" as one octet |
| Base64.DecodeTwoPadded | src/main/java/de/formcycle/baybis/BayBisSoapClient.java:94 | the decoder accepts a final unit "XXX=" as two octets |
| Base64.Decode | src/main/java/de/formcycle/baybis/BayBisSoapClient.java:94 | `Base64.getDecoder().decode` as a definition: whole units of four alphabet characters, then an optional final unit of two or three characters, unpadded or padded to four; anything else is rejected (its properties are the rows `RoundTrip`, `DecodeAccepts` and `DecodeRejects`) |
| Base64.RoundTrip | src/main/java/de/formcycle/baybis/BayBisSoapClient.java:55-94 | decoding what the encoder wrote gives back the original octets, for every input |
| Base64.DecodeAccepts | src/main/java/de/formcycle/baybis/BayBisSoapClient.java:94 | whatever the decoder accepts has no length of the form 4k+1, holds only alphabet characters and '=', and has '=' only in its last two places |
| Base64.DecodeRejects | src/main/java/de/formcycle/baybis/BayBisSoapClient.java:94 | the decoder rejects a dangling character ("A", "QUJDA"), a pad in the middle ("AB=C") and a character outside the alphabet ("AB-C") |
| Base64.EncodedIsPlainText | src/main/java/de/formcycle/baybis/BayBisSoapClient.java:55-59 | the encoding is empty exactly for empty input and never holds '<', '>' or ':' |
| Markup.Run | src/main/java/de/formcycle/baybis/BayBisSoapClient.java:131 | a greedy `[^<]*` consumes a '<'-free prefix and stops only at '<' or at the end |
| Markup.RunOfText | src/main/java/de/formcycle/baybis/BayBisSoapClient.java:131 | a '<'-free text followed by markup or by nothing is consumed whole |
| Markup.TaggedText | src/main/java/de/formcycle/baybis/BayBisSoapClient.java:131 | a found content is '<'-free, and its element begins the text |
| Markup.TaggedTextOf | src/main/java/de/formcycle/baybis/BayBisSoapClient.java:131 | an element with '<'-free content is found with exactly that content, whatever follows |
| Markup.OpenExcludes | src/main/java/de/formcycle/baybis/BayBisSoapClient.java:155-169 | open tags of two different names never begin at the same place |
| Markup.ContainsSkip | src/main/java/de/formcycle/baybis/BayBisSoapClient.java:84 | an occurrence of a pattern cannot start in a part that lacks the pattern's first character |
| SoapClient.CreateSoapEnvelope | src/main/java/de/formcycle/baybis/BayBisSoapClient.java:115-126 | the envelope is the fixed head, the payload and the fixed tail; the payload sits right after the head |
| SoapClient.EnvelopeRoundTrip | src/main/java/de/formcycle/baybis/BayBisSoapClient.java:115-126 | the payload is read back from the envelope, and an envelope is determined by its payload |
| SoapClient.PayloadElement | src/main/java/de/formcycle/baybis/BayBisSoapClient.java:122 | the xmlParameter element holds exactly the (markup-free) Base64 payload |
| SoapClient.RequestCarriesXml | src/main/java/de/formcycle/baybis/BayBisSoapClient.java:55-59 | the payload of the envelope sent decodes to the XMeld bytes |
| SoapClient.ReturnAt | src/main/java/de/formcycle/baybis/BayBisSoapClient.java:131 | group 1 of a match is non-empty and '<'-free |
| SoapClient.FindReturn | src/main/java/de/formcycle/baybis/BayBisSoapClient.java:132-134 | `Matcher.find`: a match at the reported position, none before it, and no result only when no position matches |
| SoapClient.ExtractBase64Response | src/main/java/de/formcycle/baybis/BayBisSoapClient.java:128-142 | the extracted text, when there is one, is non-empty and '<'-free (group 1 of `[^<]+`) |
| SoapClient.ExtractIsLeftmost | src/main/java/de/formcycle/baybis/BayBisSoapClient.java:128-142 | extraction succeeds exactly when some position matches, and gives the text of the leftmost match |
| SoapClient.ExtractSingleReturn | src/main/java/de/formcycle/baybis/BayBisSoapClient.java:131-135 | a body that is one return element with non-empty text yields that text |
| SoapClient.IsSoapFault | src/main/java/de/formcycle/baybis/BayBisSoapClient.java:84 | the fault test as a definition: the body contains ":Fault>" or "<Fault>" (its properties are the rows `FaultBeforeReturn` and `ElementIsNoFault`) |
| SoapClient.Classify | src/main/java/de/formcycle/baybis/BayBisSoapClient.java:73-111 | a reply succeeds only with status 200, no fault marker, an extracted return text and a successful decoding of that text into exactly the result |
| SoapClient.StatusDecidesFirst | src/main/java/de/formcycle/baybis/BayBisSoapClient.java:76-79 | a non-200 status fails with HTTP_ERR_ and the status, whatever the body holds |
| SoapClient.FaultBeforeReturn | src/main/java/de/formcycle/baybis/BayBisSoapClient.java:84-88 | a body with ":Fault>" or "<Fault>" fails with SOAP_FAULT, even when a valid return element follows |
| SoapClient.ElementIsNoFault | src/main/java/de/formcycle/baybis/BayBisSoapClient.java:84 | an unprefixed element with plain text contains neither fault marker |
| SoapClient.ResponseRoundTrip | src/main/java/de/formcycle/baybis/BayBisSoapClient.java:76-101 | a 200 reply whose return element holds the encoding of non-empty bytes yields exactly those bytes |
| SoapClient.EmptyResponseIsInvalid | src/main/java/de/formcycle/baybis/BayBisSoapClient.java:131-141 | an empty return element does not match `[^<]+`, so the reply fails with INVALID_RESP |
| SoapClient.UndecodableIsInternal | src/main/java/de/formcycle/baybis/BayBisSoapClient.java:94-111 | a 200 reply whose return element holds text the decoder rejects fails with INTERNAL_ERR, the catch-all for the decoder's IllegalArgumentException |
| SoapClient.BadBase64IsInternal | src/main/java/de/formcycle/baybis/BayBisSoapClient.java:94-111 | the return texts "A" and "AB=C" lead to INTERNAL_ERR |
| SoapClient.BayBisSoapClient.constructor | src/main/java/de/formcycle/baybis/BayBisSoapClient.java:31-32 | a missing endpoint falls back to the default BayBIS endpoint |
| SoapClient.BayBisSoapClient.SendRequest | src/main/java/de/formcycle/baybis/BayBisSoapClient.java:46-113 | the POST goes to the endpoint with the text/xml content type, an empty SOAPAction and the envelope of the Base64 payload; the outcome follows the checks in source order: interrupt, I/O failure, status, fault, extraction, decoding |
| PiiMask.Masked | src/main/java/de/formcycle/baybis/BayBisSoapClient.java:155-169 | the replacement text of every rule is '<'-free when the original is |
| PiiMask.MaskedIsStable | src/main/java/de/formcycle/baybis/BayBisSoapClient.java:155-169 | masking an already masked text again gives the same text |
| PiiMask.MatchAt | src/main/java/de/formcycle/baybis/BayBisSoapClient.java:155-169 | a match is an element of the rule's tag whose '<'-free text the rule's content pattern accepts |
| PiiMask.ReplaceAll | src/main/java/de/formcycle/baybis/BayBisSoapClient.java:155-169 | one `replaceAll` call as a definition: the leftmost match is rewritten and the search resumes after it (its properties are the rows from `SkipText` to `ReplaceAllSplit`) |
| PiiMask.SkipText | src/main/java/de/formcycle/baybis/BayBisSoapClient.java:155-169 | `replaceAll` keeps any stretch of text before the next match, since every match starts with '<' |
| PiiMask.RewriteElement | src/main/java/de/formcycle/baybis/BayBisSoapClient.java:155-169 | a rule rewrites an element it accepts into the masked element and continues after it |
| PiiMask.SkipElement | src/main/java/de/formcycle/baybis/BayBisSoapClient.java:155-169 | a rule passes over an element it does not match |
| PiiMask.ReplaceAllIdempotent | src/main/java/de/formcycle/baybis/BayBisSoapClient.java:155-169 | applying one `replaceAll` rule twice is applying it once |
| PiiMask.ReplaceAllSplit | src/main/java/de/formcycle/baybis/BayBisSoapClient.java:155-169 | one rule rewrites a text cut in front of markup that is not a closing tag as the two parts apart: no match spans such a cut |
| PiiMask.ApplyRulesSplit | src/main/java/de/formcycle/baybis/BayBisSoapClient.java:152-171 | the nine rules in turn rewrite a text cut at such a place as the two parts apart |
| PiiMask.TextIsKept | src/main/java/de/formcycle/baybis/BayBisSoapClient.java:152-171 | text without markup passes all rules unchanged |
| PiiMask.FixedIsKept | src/main/java/de/formcycle/baybis/BayBisSoapClient.java:155-169 | a rule does not disturb what a rule with another tag has already settled |
| PiiMask.RulesAreDistinct | src/main/java/de/formcycle/baybis/BayBisSoapClient.java:155-169 | the nine rules name nine different plain element names |
| PiiMask.ApplyRules | src/main/java/de/formcycle/baybis/BayBisSoapClient.java:152-171 | the nine `replaceAll` calls applied one after the other, as a definition (its properties are the rows from `ApplyRulesSettles` to `PrefixedElementKept`) |
| PiiMask.MaskPII | src/main/java/de/formcycle/baybis/BayBisSoapClient.java:149-171 | `maskPII` as a definition: null stays null, any other text goes through the nine rules in order |
| PiiMask.ApplyRulesSettles | src/main/java/de/formcycle/baybis/BayBisSoapClient.java:152-171 | after the rules have run in order, none of them has anything left to rewrite |
| PiiMask.ApplyRulesOnSettled | src/main/java/de/formcycle/baybis/BayBisSoapClient.java:152-171 | rules with nothing to rewrite leave the text unchanged |
| PiiMask.MaskPIIIdempotent | src/main/java/de/formcycle/baybis/BayBisSoapClient.java:149-171 | masking a masked payload again changes nothing; null stays null |
| PiiMask.OneElementOneRule | src/main/java/de/formcycle/baybis/BayBisSoapClient.java:155-169 | one rule rewrites a single element exactly when the tag and the content pattern match, and keeps it otherwise |
| PiiMask.ForeignElementKept | src/main/java/de/formcycle/baybis/BayBisSoapClient.java:155-169 | an element whose name no rule names passes all rules unchanged |
| PiiMask.NamedElementMasked | src/main/java/de/formcycle/baybis/BayBisSoapClient.java:152-171 | an element named by rule k is rewritten by that rule alone, and only when its text is accepted |
| PiiMask.NamedElementInContext | src/main/java/de/formcycle/baybis/BayBisSoapClient.java:152-171 | rules with distinct tags mask an element of one of their tags on its own, whatever text stands before it and whatever markup follows it |
| PiiMask.ForeignElementInContext | src/main/java/de/formcycle/baybis/BayBisSoapClient.java:152-171 | rules with distinct tags leave an element of another tag unchanged wherever it stands |
| PiiMask.MaskOneElement | src/main/java/de/formcycle/baybis/BayBisSoapClient.java:149-171 | `maskPII` of a payload holding one named element anywhere: the element becomes its masked form (the first two characters of a name, the year of a date, "***" for addresses and IDs), and the text before it and the markup after it are masked on their own |
| PiiMask.PrefixedElementKept | src/main/java/de/formcycle/baybis/BayBisSoapClient.java:155-169 | a namespace-prefixed element such as `xmeld:name` is never masked, wherever it stands in the payload |
| Dom.Filter | src/main/java/de/formcycle/baybis/XMeldResponseParser.java:36 | a node list holds exactly the matching nodes of the list searched, and never more nodes than that list |
| Dom.ElementsByTagNameNS | src/main/java/de/formcycle/baybis/XMeldResponseParser.java:36 | `Element.getElementsByTagNameNS` as a definition: the matching descendants in document order (its properties are the rows `Filter`, `FilterAppend` and `CollectIsFilter`) |
| Dom.DocumentElementsByTagNameNS | src/main/java/de/formcycle/baybis/XMeldResponseParser.java:36 | `Document.getElementsByTagNameNS` as a definition: the matching elements of the whole tree, root included, in document order |
| Dom.TextContent | src/main/java/de/formcycle/baybis/XMeldResponseParser.java:110 | `Node.getTextContent` as a definition (its property is the row `TextContentIsDescendantText`) |
| Dom.FilterAppend | src/main/java/de/formcycle/baybis/XMeldResponseParser.java:36 | filtering a concatenation filters each part |
| Dom.FirstIsLeftmost | src/main/java/de/formcycle/baybis/XMeldResponseParser.java:41 | `item(0)` is the match at the least position; there is none exactly when nothing matches |
| Dom.TextContentIsDescendantText | src/main/java/de/formcycle/baybis/XMeldResponseParser.java:110 | `getTextContent` is the text of all descendant text nodes in document order |
| Dom.CollectIsFilter | src/main/java/de/formcycle/baybis/XMeldResponseParser.java:108 | collecting tree by tree finds the same elements in the same order as filtering the descendants |
| XMeldResponse.GetTextContent | src/main/java/de/formcycle/baybis/XMeldResponseParser.java:107-113 | `getTextContent` as a definition (its property is the row `TextContentOfFirst`) |
| XMeldResponse.GetNestedValue | src/main/java/de/formcycle/baybis/XMeldResponseParser.java:116-123 | `getNestedValue` as a definition: the text of the first child-tag element inside the first parent-tag element, "" when either is missing |
| XMeldResponse.GetDeepValue | src/main/java/de/formcycle/baybis/XMeldResponseParser.java:126-128 | `getDeepValue` as a definition: the same lookup as `getTextContent` |
| XMeldResponse.Hit | src/main/java/de/formcycle/baybis/XMeldResponseParser.java:68-94 | one hit object as a definition (its properties are the rows `HitHasEightKeys` and `SampleHit`) |
| XMeldResponse.Decode | src/main/java/de/formcycle/baybis/XMeldResponseParser.java:26-104 | `parseResponse` as a definition (its properties are the rows from `ParseFailureOnly` to `NoHits`) |
| XMeldResponse.TextContentOfFirst | src/main/java/de/formcycle/baybis/XMeldResponseParser.java:107-113 | `getTextContent` is "" without a match, and otherwise the text of the first match in document order |
| XMeldResponse.HitHasEightKeys | src/main/java/de/formcycle/baybis/XMeldResponseParser.java:68-94 | every hit object has exactly the eight keys, each holding a string |
| XMeldResponse.ParseResponse | src/main/java/de/formcycle/baybis/XMeldResponseParser.java:26-104 | the method's successive puts and its loop over the hits build exactly the answer `Decode` defines |
| XMeldResponse.ParseFailureOnly | src/main/java/de/formcycle/baybis/XMeldResponseParser.java:99-101 | the answer fails exactly when the parser rejects the input, then with PARSE_ERR; otherwise it is an object |
| XMeldResponse.ErrorIffFehlermeldung | src/main/java/de/formcycle/baybis/XMeldResponseParser.java:36-53 | the status is ERROR exactly when some element is named fehlermeldung |
| XMeldResponse.ErrorAnswer | src/main/java/de/formcycle/baybis/XMeldResponseParser.java:36-53 | an ERROR answer has only status and error, with the code and text of the first fehlermeldung element |
| XMeldResponse.SuccessAnswer | src/main/java/de/formcycle/baybis/XMeldResponseParser.java:55-97 | a SUCCESS answer has exactly four keys; the count equals the array length and the number of treffer elements; rawXml is the input; hit i describes treffer element i |
| XMeldResponse.TrefferSelection | src/main/java/de/formcycle/baybis/XMeldResponseParser.java:59-63 | hits are the XMeld-namespace treffer elements, and treffer elements of other namespaces count only when there is none |
| XMeldResponse.NoHits | src/main/java/de/formcycle/baybis/XMeldResponseParser.java:55-97 | without treffer elements the answer is SUCCESS with count 0 and an empty array |
| XMeldSample.SampleNameFields | src/test/java/de/formcycle/baybis/BayBisConnectorTest.java:55-56 | the sample hit's nachname is "Mustermann" and its vorname "Max" |
| XMeldSample.SampleAddressField | src/test/java/de/formcycle/baybis/BayBisConnectorTest.java:57-62 | `getDeepValue` on the sample hit gives the six expected values: Musterstraße, 12, 12345, Musterstadt, 09123456 and F |
| XMeldSample.SampleHit | src/test/java/de/formcycle/baybis/BayBisConnectorTest.java:54-62 | the sample's hit object holds the eight values the connector test expects |
| XMeldSample.SampleLacksFehlermeldung | src/test/java/de/formcycle/baybis/BayBisConnectorTest.java:15-41 | the sample answer holds no fehlermeldung element |
| XMeldSample.SampleHasOneTreffer | src/test/java/de/formcycle/baybis/BayBisConnectorTest.java:52 | the sample answer holds exactly one XMeld treffer element |
| XMeldSample.SampleDecodes | src/test/java/de/formcycle/baybis/BayBisConnectorTest.java:47-52 | the sample decodes to SUCCESS with one hit |
| XmlEscape.ReplaceChar | src/test/java/de/formcycle/baybis/BayBisTestServlet.java:225 | `String.replace` leaves a text without the target unchanged, and leaves no target when the replacement has none |
| XmlEscape.ReplaceAppend | src/test/java/de/formcycle/baybis/BayBisTestServlet.java:225-229 | `String.replace` works on each part of a concatenation separately |
| XmlEscape.ChainIsPerChar | src/test/java/de/formcycle/baybis/BayBisTestServlet.java:225-229 | because '&' goes first, the five chained replace calls amount to a per-character entity map (nothing is escaped twice) |
| XmlEscape.Entity | src/test/java/de/formcycle/baybis/BayBisTestServlet.java:225-229 | the five special characters become entity references "&…;"; any other character stays; no '<', '>', '"' or ''' is left |
| XmlEscape.Escaped | src/test/java/de/formcycle/baybis/BayBisTestServlet.java:225-229 | escaped text holds no '<', '>', '"' or '''; text without special characters is unchanged; escaping never shortens |
| XmlEscape.EscapeXml | src/test/java/de/formcycle/baybis/BayBisTestServlet.java:223-230 | null becomes ""; any other text becomes its per-character escape |
| XmlEscape.UnescapeEscaped | src/test/java/de/formcycle/baybis/BayBisTestServlet.java:223-230 | decoding the five entities undoes escaping, for every text |
| XmlEscape.EscapeInjective | src/test/java/de/formcycle/baybis/BayBisTestServlet.java:223-230 | different texts escape to different texts |
| TestServlet.UpTo | src/test/java/de/formcycle/baybis/BayBisTestServlet.java:208 | the loop's codes are 1, 2, …, n |
| TestServlet.HasAddress | src/test/java/de/formcycle/baybis/BayBisTestServlet.java:60-61 | the `hasAddress` rule as a definition: some address field is non-empty |
| TestServlet.RequestText | src/test/java/de/formcycle/baybis/BayBisTestServlet.java:101-221 | the text `buildXMeldRequest` produces, as a definition (its properties are the rows from `NamesRoundTrip` to `RequestCodes`) |
| TestServlet.BuildXMeldRequest | src/test/java/de/formcycle/baybis/BayBisTestServlet.java:101-221 | the StringBuilder appends produce the request text, section by section |
| TestServlet.AppendAddress | src/test/java/de/formcycle/baybis/BayBisTestServlet.java:168-189 | the wohnung block is appended only under hasAddress, with only its non-empty fields, escaped |
| TestServlet.AppendCodes | src/test/java/de/formcycle/baybis/BayBisTestServlet.java:207-215 | the loop over 1 to 10 and the five fixed lines append the code lines of 1–10, 29, 33, 34, 35, 37 |
| TestServlet.ReadElement | src/test/java/de/formcycle/baybis/BayBisTestServlet.java:161-162 | a line read from the request is the lead, the element with '<'-free content and the trail |
| TestServlet.ReadElementOf | src/test/java/de/formcycle/baybis/BayBisTestServlet.java:161-162 | a line with '<'-free content is read back with that content and the text after it |
| TestServlet.NamesRoundTrip | src/test/java/de/formcycle/baybis/BayBisTestServlet.java:161-162 | both names are recovered from the request, whatever characters they hold |
| TestServlet.BirthDateVerbatim | src/test/java/de/formcycle/baybis/BayBisTestServlet.java:197 | the birth date is inserted as given, without escaping |
| TestServlet.ReadFieldStep | src/test/java/de/formcycle/baybis/BayBisTestServlet.java:172-180 | an address field line is written exactly when its value is non-empty, and gives the value back |
| TestServlet.ReadHausnummerStep | src/test/java/de/formcycle/baybis/BayBisTestServlet.java:181-185 | the house number is written inside its range element exactly when non-empty, and gives the value back |
| TestServlet.AddressLinesRoundTrip | src/test/java/de/formcycle/baybis/BayBisTestServlet.java:172-185 | the four address fields are recovered from the lines in their fixed order postleitzahl, strasse, wohnort, hausnummer |
| TestServlet.AddressBlockRoundTrip | src/test/java/de/formcycle/baybis/BayBisTestServlet.java:168-189 | the wohnung block is present exactly when hasAddress is set, and then carries the whole address |
| TestServlet.SearchAddress | src/test/java/de/formcycle/baybis/BayBisTestServlet.java:168-197 | the address block followed by the birth-date line is read back as the address exactly when some address field is non-empty, and as no address otherwise |
| TestServlet.RequestAddress | src/test/java/de/formcycle/baybis/BayBisTestServlet.java:101-221 | the request doPost sends is the header and name section (which do not depend on the address) followed by a text whose address block is read back as the address exactly when some address field is non-empty |
| TestServlet.ReadCodeStep | src/test/java/de/formcycle/baybis/BayBisTestServlet.java:209 | one code line gives its number back |
| TestServlet.ReadCodesOf | src/test/java/de/formcycle/baybis/BayBisTestServlet.java:208-215 | consecutive code lines give back their numbers, in order |
| TestServlet.RequestCodes | src/test/java/de/formcycle/baybis/BayBisTestServlet.java:207-217 | the request asks for exactly the data elements 1–10, 29, 33, 34, 35 and 37, in that order |

## Left out

- HTTP transport, timeouts, request headers beyond content type and SOAPAction, and `URI.create`: the exchange outcome is a parameter. A malformed endpoint or an I/O error is the `IoFailure` case, which maps to INTERNAL_ERR.
- `Thread.currentThread().interrupt()`: thread state is not modelled. An interrupt is the `InterruptedExchange` case, which maps to INTERRUPTED.
- Logging: nothing is logged. `maskPII` is modelled as a function, but the log calls that use it are not.
- UTF-8: requests and responses are byte sequences, and the conversion between Java strings and UTF-8 bytes is not modelled.
- `Objects.requireNonNull` on the request: the XMeld payload is a value, so it cannot be null.
- The DOM parser and the org.json library: the parser's output is a parameter, `Option<Node>`, and JSON values are a small datatype. Namespace prefixes, attributes and entity decoding by the parser are not modelled.
- `doPost` and `doOptions` of the servlet: reading the request body, JSON parsing, writing the response and CORS headers are not modelled. Of `doPost`, only the `hasAddress` rule and the request it passes to `buildXMeldRequest` are covered (`SearchRequest`, `RequestAddress`).
- BayBisRawAction, ManualBayBisTrigger and the test web server are outside the modelled core.
- TestServlet.BuildXMeldRequest: `UUID.randomUUID` and `ZonedDateTime.now` become the parameters `uuid` and `timestamp`.
- TestServlet.BuildXMeldRequest: the address block and the code list are appended by two helper methods, `AppendAddress` and `AppendCodes`, instead of inline in the method body.
- TestServlet.BirthDateVerbatim: requires a birth date without '<'. The source inserts the date unescaped, so a date containing markup cannot be read back.
- The class `BayBisSoapClient` keeps only its endpoint. The `HttpClient` field is replaced by the exchange parameter of `SendRequest`.
- Decimal.NatToString: status codes are modelled as unbounded integers; the 32-bit range of Java's `int` does not matter for the three-digit HTTP codes.
