/**
 * BayBisTestServlet.buildXMeldRequest: the XMeld 1332 free-search request the
 * demo servlet sends, built by appending lines to a StringBuilder. The message
 * UUID and the creation timestamp are parameters (the source draws them from
 * UUID.randomUUID and the clock).
 */
module TestServlet {
  import opened Wrappers
  import opened Markup
  import Decimal
  import opened XmlEscape

  /** The four optional address fields of a search, "" when absent. */
  datatype Address = Address(strasse: string, hausnummer: string, plz: string, ort: string)

  /** The hasAddress rule of doPost: some address field is non-empty. */
  predicate HasAddress(a: Address)
  {
    a.strasse != "" || a.hausnummer != "" || a.plz != "" || a.ort != ""
  }

  /** One line "<lead><tag>content</tag><trail>". */
  function Line(lead: string, tag: string, trail: string, content: string): string
  {
    lead + ElementText(tag, content) + trail
  }

  // ---------------------------------------------------------------------------
  // The fixed text of the request
  // ---------------------------------------------------------------------------

  const AgsLeser := "ags:09000009"
  const DbsAutor := "dbs:060030010000"

  const Prolog :=
    "<?xml version=\"1.0\" encoding=\"UTF-8\"?>\n" +
    "<xmeld:datenabruf.freieSuche.suchanfrage.1332\n" +
    "    xmlns:xmeld=\"http://www.osci.de/xmeld2511a\"\n" +
    "    xmlns:xsi=\"http://www.w3.org/2001/XMLSchema-instance\"\n" +
    "    version=\"25.11a\"\n" +
    "    standard=\"XMeld\">\n"

  const HeaderOpen :=
    "    <nachrichtenkopf.g2g>\n" +
    "        <identifikation.nachricht>\n" +
    "            <nachrichtenUUID>"

  const HeaderMid :=
    "</nachrichtenUUID>\n" +
    "            <nachrichtentyp><code>1332</code></nachrichtentyp>\n" +
    "            <erstellungszeitpunkt>"

  const HeaderClose :=
    "</erstellungszeitpunkt>\n" +
    "        </identifikation.nachricht>\n" +
    "        <leser>\n" +
    "            <verzeichnisdienst listVersionID=\"3\"><code>DVDV</code></verzeichnisdienst>\n" +
    "            <kennung>" + AgsLeser + "</kennung>\n" +
    "            <name>Test Municipality</name>\n" +
    "        </leser>\n" +
    "        <autor>\n" +
    "            <verzeichnisdienst listVersionID=\"3\"><code>DVDV</code></verzeichnisdienst>\n" +
    "            <kennung>" + DbsAutor + "</kennung>\n" +
    "            <name>Test Authority</name>\n" +
    "        </autor>\n" +
    "    </nachrichtenkopf.g2g>\n"

  /** The message head: a fresh UUID and the creation time. */
  function HeaderText(uuid: string, timestamp: string): string
  {
    HeaderOpen + uuid + HeaderMid + timestamp + HeaderClose
  }

  /** Reader and author addresses and the requesting authority: all fixed. */
  const Parties :=
    "    <anschrift.leser><gebaeude><hausnummer>1</hausnummer><postleitzahl>80000</postleitzahl>" +
    "<strasse>Teststraße</strasse><wohnort>München</wohnort></gebaeude></anschrift.leser>\n" +
    "    <anschrift.autor><gebaeude><hausnummer>1</hausnummer><postleitzahl>80000</postleitzahl>" +
    "<strasse>Teststraße</strasse><wohnort>München</wohnort></gebaeude></anschrift.autor>\n" +
    "    <xmeld:datenAbrufendeStelle>\n" +
    "        <xmeld:sicherheitsbehoerde>false</xmeld:sicherheitsbehoerde>\n" +
    "        <xmeld:abrufberechtigteStelle>\n" +
    "            <xmeld:anschrift><gebaeude><hausnummer>1</hausnummer><postleitzahl>80000</postleitzahl>" +
    "<strasse>Teststraße</strasse><wohnort>München</wohnort></gebaeude></xmeld:anschrift>\n" +
    "            <xmeld:behoerdenname>Test Authority</xmeld:behoerdenname>\n" +
    "        </xmeld:abrufberechtigteStelle>\n" +
    "        <xmeld:aktenzeichen>WEB-TEST</xmeld:aktenzeichen>\n" +
    "        <xmeld:anlassDesAbrufs>Web Interface Test</xmeld:anlassDesAbrufs>\n" +
    "        <xmeld:kennung>web/test</xmeld:kennung>\n" +
    "    </xmeld:datenAbrufendeStelle>\n"

  const SearchOpen :=
    "    <xmeld:suchprofil>\n" +
    "        <xmeld:auswahldaten>\n"

  const NameOpen :=
    "            <xmeld:name>\n" +
    "                <xmeld:name>\n" +
    "                    <xmeld:nachnameUndVornamen>\n"

  const VornamenLead := "                        <xmeld:vornamen>"
  const VornamenTrail := "</xmeld:vornamen>\n"
  const NachnameLead := "                        <xmeld:nachname>"
  const NachnameTrail := "</xmeld:nachname>\n"

  const NameClose :=
    "                    </xmeld:nachnameUndVornamen>\n" +
    "                </xmeld:name>\n" +
    "            </xmeld:name>\n"

  const WohnungOpen :=
    "            <xmeld:wohnung>\n" +
    "                <xmeld:anschrift>\n" +
    "                    <xmeld:anschrift.inland>\n"

  /** The indentation of an address field line. */
  const FieldLead := "                        "

  const HnrWrapperTag := "hausnummerOderHausnummernbereich"
  const HnrOpen := FieldLead + Open(HnrWrapperTag) + "\n"
  const HnrLead := "                            "
  const HnrClose := FieldLead + Close(HnrWrapperTag) + "\n"

  const WohnungClose :=
    "                    </xmeld:anschrift.inland>\n" +
    "                </xmeld:anschrift>\n" +
    "            </xmeld:wohnung>\n"

  const BirthOpen :=
    "            <xmeld:geburtsdaten>\n" +
    "                <xmeld:geburtstag>\n" +
    "                    <xmeld:geburtsdatum>\n" +
    "                        <xmeld:geburtsdatum>\n" +
    "                            <teilbekanntesDatum>\n" +
    "                                "

  const BirthClose :=
    "\n" +
    "                            </teilbekanntesDatum>\n" +
    "                        </xmeld:geburtsdatum>\n" +
    "                    </xmeld:geburtsdatum>\n" +
    "                </xmeld:geburtstag>\n" +
    "            </xmeld:geburtsdaten>\n"

  const SearchClose :=
    "        </xmeld:auswahldaten>\n" +
    "    </xmeld:suchprofil>\n"

  const ControlsOpen := "    <xmeld:steuerungsinformationen>\n"
  const CodeLead := "        <xmeld:anforderungselement>"
  const CodeTrail := "</xmeld:anforderungselement>\n"

  const VerzichtOpen := "        <xmeld:verzichtAufMitteilung>"
  const VerzichtLine := VerzichtOpen + "true</xmeld:verzichtAufMitteilung>\n"

  const RootClose :=
    "    </xmeld:steuerungsinformationen>\n" +
    "</xmeld:datenabruf.freieSuche.suchanfrage.1332>"

  const ControlsClose := VerzichtLine + RootClose

  // ---------------------------------------------------------------------------
  // The sections that depend on the search
  // ---------------------------------------------------------------------------

  /** First and last name, each escaped, inside <name> elements. */
  function NameLines(vorname: string, nachname: string): string
  {
    NameOpen +
    Line(VornamenLead, "name", VornamenTrail, EscapeXml(Some(vorname))) +
    Line(NachnameLead, "name", NachnameTrail, EscapeXml(Some(nachname))) +
    NameClose
  }

  /** An address field line, present only for a non-empty value. */
  function FieldLine(tag: string, v: string): string
  {
    if v == "" then "" else Line(FieldLead, tag, "\n", EscapeXml(Some(v)))
  }

  /** The house number, wrapped in its range element, present only when non-empty. */
  function HnrLines(v: string): string
  {
    if v == "" then "" else HnrOpen + Line(HnrLead, "hausnummer", "\n", EscapeXml(Some(v))) + HnrClose
  }

  /** The field lines in their fixed order: postleitzahl, strasse, wohnort, hausnummer. */
  function AddressLines(a: Address): string
  {
    FieldLine("postleitzahl", a.plz) + (FieldLine("strasse", a.strasse) +
      (FieldLine("wohnort", a.ort) + HnrLines(a.hausnummer)))
  }

  /** The <xmeld:wohnung> block, emitted only when hasAddress holds. */
  function AddressBlock(hasAddress: bool, a: Address): string
  {
    if hasAddress then WohnungOpen + AddressLines(a) + WohnungClose else ""
  }

  /** The birth date, spliced in as given. */
  function BirthLines(geburtsdatum: string): string
  {
    Line(BirthOpen, "jahrMonatTag", BirthClose, geburtsdatum)
  }

  /** One requested data element. */
  function CodeLine(n: nat): string
  {
    Line(CodeLead, "code", CodeTrail, Decimal.NatToString(n))
  }

  function CodeLines(ns: seq<nat>): string
  {
    if ns == [] then "" else CodeLine(ns[0]) + CodeLines(ns[1..])
  }

  /** 1, 2, ..., n. */
  function UpTo(n: nat): (r: seq<nat>)
    ensures |r| == n && forall k :: 0 <= k < n ==> r[k] == k + 1
  {
    if n == 0 then [] else UpTo(n - 1) + [n]
  }

  /** The requested data elements: 1 to 10, then 29, 33, 34, 35 and 37. */
  function Codes(): seq<nat>
  {
    UpTo(10) + [29, 33, 34, 35, 37]
  }

  /** The whole request, section by section. */
  function RequestText(vorname: string, nachname: string, geburtsdatum: string, hasAddress: bool,
                       a: Address, uuid: string, timestamp: string): string
  {
    Prolog + HeaderText(uuid, timestamp) + Parties + SearchOpen +
    NameLines(vorname, nachname) + AddressBlock(hasAddress, a) +
    BirthLines(geburtsdatum) + SearchClose +
    ControlsOpen + CodeLines(Codes()) + ControlsClose
  }

  /** The request doPost builds from the search fields, with hasAddress computed from them. */
  function SearchRequest(vorname: string, nachname: string, geburtsdatum: string, a: Address,
                         uuid: string, timestamp: string): string
  {
    RequestText(vorname, nachname, geburtsdatum, HasAddress(a), a, uuid, timestamp)
  }

  // ---------------------------------------------------------------------------
  // buildXMeldRequest
  // ---------------------------------------------------------------------------

  lemma CodeLinesAppend(xs: seq<nat>, ys: seq<nat>)
    ensures CodeLines(xs + ys) == CodeLines(xs) + CodeLines(ys)
  {
    if xs == [] {
      assert xs + ys == ys;
    } else {
      assert (xs + ys)[1..] == xs[1..] + ys;
      CodeLinesAppend(xs[1..], ys);
    }
  }

  /** Regrouping appends, whatever the parts. */
  lemma Regroup(front: string, open: string, body: string, close: string)
    ensures front + open + body + close == front + (open + body + close)
  {
  }

  lemma RegroupFields(front: string, a: string, b: string, c: string, d: string)
    ensures front + a + b + c + d == front + (a + (b + (c + d)))
  {
  }

  lemma RegroupTail(front: string, a: string, b: string)
    ensures front + a + b == front + (a + b)
  {
  }

  /** One more code line extends the code list. */
  lemma AppendCode(front: string, ns: seq<nat>, n: nat)
    ensures front + CodeLines(ns) + CodeLine(n) == front + CodeLines(ns + [n])
  {
    CodeLinesAppend(ns, [n]);
    assert CodeLines([n]) == CodeLine(n) + CodeLines([]);
    RegroupTail(front, CodeLines(ns), CodeLine(n));
  }

  /**
   * buildXMeldRequest: the request text, appended section by section; each
   * append of a lead, a value and a trail is one Line. The conditional
   * address block and the code list are appended by the two methods below.
   */
  method BuildXMeldRequest(vorname: string, nachname: string, geburtsdatum: string, hasAddress: bool,
                           strasse: string, hausnummer: string, plz: string, ort: string,
                           uuid: string, timestamp: string) returns (xml: string)
    ensures xml == RequestText(vorname, nachname, geburtsdatum, hasAddress,
                               Address(strasse, hausnummer, plz, ort), uuid, timestamp)
  {
    xml := Prolog;
    xml := xml + HeaderText(uuid, timestamp);
    xml := xml + Parties;
    xml := xml + SearchOpen;
    xml := xml + NameLines(vorname, nachname);
    xml := AppendAddress(xml, hasAddress, strasse, hausnummer, plz, ort);
    xml := xml + BirthLines(geburtsdatum);
    xml := xml + SearchClose;
    xml := xml + ControlsOpen;
    xml := AppendCodes(xml);
    xml := xml + ControlsClose;
  }

  /** The optional <xmeld:wohnung> block: only under hasAddress, and in it only the non-empty fields. */
  method AppendAddress(before: string, hasAddress: bool,
                       strasse: string, hausnummer: string, plz: string, ort: string) returns (xml: string)
    ensures xml == before + AddressBlock(hasAddress, Address(strasse, hausnummer, plz, ort))
  {
    xml := before;
    if hasAddress {
      xml := xml + WohnungOpen;
      ghost var x0 := xml;
      if plz != "" {
        xml := xml + Line(FieldLead, "postleitzahl", "\n", EscapeXml(Some(plz)));
      }
      ghost var x1 := xml;
      assert x1 == x0 + FieldLine("postleitzahl", plz);
      if strasse != "" {
        xml := xml + Line(FieldLead, "strasse", "\n", EscapeXml(Some(strasse)));
      }
      ghost var x2 := xml;
      assert x2 == x1 + FieldLine("strasse", strasse);
      if ort != "" {
        xml := xml + Line(FieldLead, "wohnort", "\n", EscapeXml(Some(ort)));
      }
      ghost var x3 := xml;
      assert x3 == x2 + FieldLine("wohnort", ort);
      if hausnummer != "" {
        xml := xml + HnrOpen + Line(HnrLead, "hausnummer", "\n", EscapeXml(Some(hausnummer))) + HnrClose;
        Regroup(x3, HnrOpen, Line(HnrLead, "hausnummer", "\n", EscapeXml(Some(hausnummer))), HnrClose);
      }
      assert xml == x3 + HnrLines(hausnummer);
      RegroupFields(x0, FieldLine("postleitzahl", plz), FieldLine("strasse", strasse),
                    FieldLine("wohnort", ort), HnrLines(hausnummer));
      xml := xml + WohnungClose;
      Regroup(before, WohnungOpen, AddressLines(Address(strasse, hausnummer, plz, ort)), WohnungClose);
    }
  }

  /** The loop's codes followed by the five fixed ones make up the code list. */
  lemma CodesInOrder(ns: seq<nat>)
    requires ns == UpTo(10) + [29] + [33] + [34] + [35] + [37]
    ensures ns == Codes()
  {
  }

  /** The requested data elements: a loop over 1 to 10, then five fixed codes. */
  method AppendCodes(before: string) returns (xml: string)
    ensures xml == before + CodeLines(Codes())
  {
    xml := before;
    for i := 1 to 11
      invariant xml == before + CodeLines(UpTo(i - 1))
    {
      AppendCode(before, UpTo(i - 1), i);
      xml := xml + CodeLine(i);
    }
    ghost var ns := UpTo(10);
    xml := xml + CodeLine(29);
    AppendCode(before, ns, 29);
    ns := ns + [29];
    xml := xml + CodeLine(33);
    AppendCode(before, ns, 33);
    ns := ns + [33];
    xml := xml + CodeLine(34);
    AppendCode(before, ns, 34);
    ns := ns + [34];
    xml := xml + CodeLine(35);
    AppendCode(before, ns, 35);
    ns := ns + [35];
    xml := xml + CodeLine(37);
    AppendCode(before, ns, 37);
    ns := ns + [37];
    CodesInOrder(ns);
  }

  // ---------------------------------------------------------------------------
  // Reading the sections back
  // ---------------------------------------------------------------------------

  /** The element names the request writes around search values. */
  lemma TagsArePlain()
    ensures ValidTag("name") && ValidTag("jahrMonatTag") && ValidTag("code")
    ensures ValidTag("postleitzahl") && ValidTag("strasse") && ValidTag("wohnort")
    ensures ValidTag("hausnummer") && ValidTag(HnrWrapperTag)
  {
  }

  /**
   * Reads "<lead><tag>content</tag><trail>" at the start of s: the '<'-free
   * content and what follows the line, or None.
   */
  function ReadElement(lead: string, tag: string, trail: string, s: string): (r: Option<(string, string)>)
    ensures r.Some? ==> Line(lead, tag, trail, r.value.0) + r.value.1 == s && '<' !in r.value.0
  {
    if lead <= s then
      match TaggedText(tag, s[|lead|..])
      case Some(c) =>
        var after := s[|lead| + |ElementText(tag, c)|..];
        if trail <= after then
          ReadElementSplit(lead, tag, trail, c, s);
          Some((c, after[|trail|..]))
        else None
      case None => None
    else None
  }

  lemma ReadElementSplit(lead: string, tag: string, trail: string, c: string, s: string)
    requires lead <= s && ElementText(tag, c) <= s[|lead|..]
    requires trail <= s[|lead| + |ElementText(tag, c)|..]
    ensures Line(lead, tag, trail, c) + s[|lead| + |ElementText(tag, c)| + |trail|..] == s
  {
    var e := ElementText(tag, c);
    var k := |lead| + |e| + |trail|;
    assert s[..|lead|] == lead;
    assert s[|lead|..|lead| + |e|] == e;
    assert s[|lead| + |e|..k] == trail;
    assert s == s[..|lead|] + s[|lead|..|lead| + |e|] + s[|lead| + |e|..k] + s[k..];
  }

  /** A line with '<'-free content is read back with that content and the rest after it. */
  lemma ReadElementOf(lead: string, tag: string, trail: string, c: string, rest: string)
    requires ValidTag(tag) && '<' !in c
    ensures ReadElement(lead, tag, trail, Line(lead, tag, trail, c) + rest) == Some((c, rest))
  {
    var e := ElementText(tag, c);
    var s := Line(lead, tag, trail, c) + rest;
    assert s == lead + (e + (trail + rest));
    assert s[|lead|..] == e + (trail + rest);
    TaggedTextOf(tag, c, trail + rest);
    assert s[|lead| + |e|..] == trail + rest;
    assert (trail + rest)[|trail|..] == rest;
  }

  // Regrouping and prefix facts about arbitrary strings, used below with the
  // fixed text of the request in place of p, a, b, ...

  lemma SkipPrefix(p: string, x: string)
    ensures p <= p + x && (p + x)[|p|..] == x
  {
    assert (p + x)[..|p|] == p;
  }

  lemma IndexInFront(p: string, x: string, k: nat)
    requires k < |p|
    ensures (p + x)[k] == p[k]
  {
  }

  lemma Nest3(p: string, a: string, b: string, c: string)
    ensures ((p + a) + b) + c == p + (a + (b + c))
  {
  }

  lemma Nest4(p: string, a: string, b: string, c: string, d: string)
    ensures (((p + a) + b) + c) + d == p + (a + (b + (c + d)))
  {
  }

  lemma NestRight(p: string, a: string, b: string, c: string, d: string)
    ensures (p + (a + (b + c))) + d == p + (a + (b + (c + d)))
  {
  }

  /** p + q starts s exactly when p does and q starts what follows p. */
  lemma PrefixShift(p: string, q: string, s: string)
    ensures (p + q <= s) <==> (p <= s && q <= s[|p|..])
  {
    if p + q <= s {
      assert s[..|p|] == (p + q)[..|p|] == p;
      assert s[|p|..][..|q|] == (p + q)[|p|..] == q;
    }
    if p <= s && q <= s[|p|..] {
      assert s[..|p| + |q|] == s[..|p|] + s[|p|..][..|q|];
    }
  }

  /** A line opens with its lead and its element's open tag. */
  lemma LineOpens(lead: string, tag: string, trail: string, c: string, rest: string)
    ensures lead + Open(tag) <= Line(lead, tag, trail, c) + rest
  {
    assert Line(lead, tag, trail, c) + rest == (lead + Open(tag)) + (c + Close(tag) + trail + rest);
    SkipPrefix(lead + Open(tag), c + Close(tag) + trail + rest);
  }

  /** A line is only found where the text opens with the lead and the tag. */
  lemma ReadElementNeedsOpen(lead: string, tag: string, trail: string, s: string)
    ensures ReadElement(lead, tag, trail, s).Some? ==> lead + Open(tag) <= s
  {
    var r := ReadElement(lead, tag, trail, s);
    if r.Some? {
      LineOpens(lead, tag, trail, r.value.0, r.value.1);
    }
  }

  /** The first and last name, unescaped, from the name section. */
  function ReadNames(s: string): Option<(string, string)>
  {
    if NameOpen <= s then
      match ReadElement(VornamenLead, "name", VornamenTrail, s[|NameOpen|..])
      case Some((v, r)) =>
        (match ReadElement(NachnameLead, "name", NachnameTrail, r)
         case Some((n, _)) => Some((Unescape(v), Unescape(n)))
         case None => None)
      case None => None
    else None
  }

  /** Both names come back unchanged from their escaped form, whatever characters they hold. */
  lemma NamesRoundTrip(vorname: string, nachname: string, rest: string)
    ensures ReadNames(NameLines(vorname, nachname) + rest) == Some((vorname, nachname))
  {
    TagsArePlain();
    var ev, en := EscapeXml(Some(vorname)), EscapeXml(Some(nachname));
    var lv := Line(VornamenLead, "name", VornamenTrail, ev);
    var ln := Line(NachnameLead, "name", NachnameTrail, en);
    var tail := lv + (ln + (NameClose + rest));
    Nest4(NameOpen, lv, ln, NameClose, rest);
    SkipPrefix(NameOpen, tail);
    ReadElementOf(VornamenLead, "name", VornamenTrail, ev, ln + (NameClose + rest));
    ReadElementOf(NachnameLead, "name", NachnameTrail, en, NameClose + rest);
    UnescapeEscaped(vorname);
    UnescapeEscaped(nachname);
  }

  /** The birth date is read back exactly as given: it is not escaped. */
  lemma BirthDateVerbatim(geburtsdatum: string, rest: string)
    requires '<' !in geburtsdatum
    ensures ReadElement(BirthOpen, "jahrMonatTag", BirthClose, BirthLines(geburtsdatum) + rest) ==
            Some((geburtsdatum, rest))
  {
    TagsArePlain();
    ReadElementOf(BirthOpen, "jahrMonatTag", BirthClose, geburtsdatum, rest);
  }

  /** Whether s opens with an address field line for tag. */
  predicate StartsField(tag: string, s: string)
  {
    FieldLead + Open(tag) <= s
  }

  /** The value of an optional field line at the start of s (unescaped) and the rest, or "" and s. */
  function ReadOptional(lead: string, tag: string, trail: string, s: string): (string, string)
  {
    match ReadElement(lead, tag, trail, s)
    case Some((c, rest)) => (Unescape(c), rest)
    case None => ("", s)
  }

  /** The house number inside its range element, or "" when the element is absent. */
  function ReadHausnummer(s: string): string
  {
    if HnrOpen <= s then ReadOptional(HnrLead, "hausnummer", "\n", s[|HnrOpen|..]).0 else ""
  }

  /** The four fields of the address lines, in the order they are written. */
  function ReadAddressLines(s: string): Address
  {
    var (plz, s1) := ReadOptional(FieldLead, "postleitzahl", "\n", s);
    var (strasse, s2) := ReadOptional(FieldLead, "strasse", "\n", s1);
    var (ort, s3) := ReadOptional(FieldLead, "wohnort", "\n", s2);
    Address(strasse, ReadHausnummer(s3), plz, ort)
  }

  /** The address of the <xmeld:wohnung> block, or None when the block is absent. */
  function ReadAddress(s: string): Option<Address>
  {
    if WohnungOpen <= s then Some(ReadAddressLines(s[|WohnungOpen|..])) else None
  }

  /** Field lines with different names exclude each other. */
  lemma FieldsExclude(t1: string, t2: string, s: string)
    requires ValidTag(t1) && ValidTag(t2) && t1 != t2
    ensures !(StartsField(t1, s) && StartsField(t2, s))
  {
    if StartsField(t1, s) {
      PrefixShift(FieldLead, Open(t1), s);
      PrefixShift(FieldLead, Open(t2), s);
      OpenExcludes(t1, t2, s[|FieldLead|..]);
    }
  }

  /** The closing lines of the block are no field line: they are indented less. */
  lemma CloseIsNoField(tag: string, y: string)
    ensures !StartsField(tag, WohnungClose + y)
    ensures !(HnrOpen <= WohnungClose + y)
  {
    var s := WohnungClose + y;
    IndexInFront(WohnungClose, y, 20);
    IndexInFront(FieldLead, Open(tag), 20);
    IndexInFront(FieldLead, Open(HnrWrapperTag), 20);
    IndexInFront(FieldLead + Open(HnrWrapperTag), "\n", 20);
    DifferAt(FieldLead + Open(tag), s, 20);
    DifferAt(HnrOpen, s, 20);
  }

  /** A field line, present or absent, does not make the text start with another field. */
  lemma SkipField(tag: string, t2: string, v: string, rest: string)
    requires ValidTag(tag) && ValidTag(t2) && tag != t2 && !StartsField(tag, rest)
    ensures !StartsField(tag, FieldLine(t2, v) + rest)
  {
    if v != "" {
      LineOpens(FieldLead, t2, "\n", EscapeXml(Some(v)), rest);
      FieldsExclude(t2, tag, FieldLine(t2, v) + rest);
    }
  }

  /** Likewise for the house number element. */
  lemma SkipHausnummer(tag: string, v: string, rest: string)
    requires ValidTag(tag) && tag != HnrWrapperTag && !StartsField(tag, rest)
    ensures !StartsField(tag, HnrLines(v) + rest)
  {
    TagsArePlain();
    if v != "" {
      var l := Line(HnrLead, "hausnummer", "\n", EscapeXml(Some(v)));
      var p := FieldLead + Open(HnrWrapperTag);
      Nest4(p, "\n", l, HnrClose, rest);
      SkipPrefix(p, "\n" + (l + (HnrClose + rest)));
      FieldsExclude(HnrWrapperTag, tag, HnrLines(v) + rest);
    }
  }

  /** An optional field line gives back its value, "" for an absent line, and the text after it. */
  lemma ReadFieldStep(tag: string, v: string, rest: string)
    requires ValidTag(tag) && !StartsField(tag, rest)
    ensures ReadOptional(FieldLead, tag, "\n", FieldLine(tag, v) + rest) == (v, rest)
  {
    if v == "" {
      assert FieldLine(tag, v) + rest == rest;
      ReadElementNeedsOpen(FieldLead, tag, "\n", rest);
    } else {
      ReadElementOf(FieldLead, tag, "\n", EscapeXml(Some(v)), rest);
      UnescapeEscaped(v);
    }
  }

  /** The house number comes back from its lines, "" when they are absent. */
  lemma ReadHausnummerStep(v: string, y: string)
    ensures ReadHausnummer(HnrLines(v) + (WohnungClose + y)) == v
  {
    var t := WohnungClose + y;
    if v == "" {
      assert HnrLines(v) + t == t;
      CloseIsNoField("hausnummer", y);
    } else {
      TagsArePlain();
      var l := Line(HnrLead, "hausnummer", "\n", EscapeXml(Some(v)));
      Nest3(HnrOpen, l, HnrClose, t);
      SkipPrefix(HnrOpen, l + (HnrClose + t));
      ReadElementOf(HnrLead, "hausnummer", "\n", EscapeXml(Some(v)), HnrClose + t);
      UnescapeEscaped(v);
    }
  }

  /**
   * Each address field is read back from the lines: a field appears exactly
   * when it is non-empty, in the order postleitzahl, strasse, wohnort,
   * hausnummer, and its escaped text gives back the value.
   */
  lemma AddressLinesRoundTrip(a: Address, y: string)
    ensures ReadAddressLines(AddressLines(a) + (WohnungClose + y)) == a
  {
    TagsArePlain();
    var t := WohnungClose + y;
    var r3 := HnrLines(a.hausnummer) + t;
    var r2 := FieldLine("wohnort", a.ort) + r3;
    var r1 := FieldLine("strasse", a.strasse) + r2;
    NestRight(FieldLine("postleitzahl", a.plz), FieldLine("strasse", a.strasse),
              FieldLine("wohnort", a.ort), HnrLines(a.hausnummer), t);
    CloseIsNoField("postleitzahl", y);
    CloseIsNoField("strasse", y);
    CloseIsNoField("wohnort", y);
    SkipHausnummer("postleitzahl", a.hausnummer, t);
    SkipHausnummer("strasse", a.hausnummer, t);
    SkipHausnummer("wohnort", a.hausnummer, t);
    SkipField("postleitzahl", "wohnort", a.ort, r3);
    SkipField("strasse", "wohnort", a.ort, r3);
    SkipField("postleitzahl", "strasse", a.strasse, r2);
    ReadFieldStep("postleitzahl", a.plz, r1);
    ReadFieldStep("strasse", a.strasse, r2);
    ReadFieldStep("wohnort", a.ort, r3);
    ReadHausnummerStep(a.hausnummer, y);
  }

  /** The wohnung block is found exactly when hasAddress was set, and then with the whole address. */
  lemma AddressBlockRoundTrip(hasAddress: bool, a: Address, y: string)
    requires !(WohnungOpen <= y)
    ensures ReadAddress(AddressBlock(hasAddress, a) + y) == if hasAddress then Some(a) else None
  {
    if hasAddress {
      Nest3(WohnungOpen, AddressLines(a), WohnungClose, y);
      SkipPrefix(WohnungOpen, AddressLines(a) + (WohnungClose + y));
      AddressLinesRoundTrip(a, y);
    } else {
      assert AddressBlock(hasAddress, a) + y == y;
    }
  }

  /** What follows the address block in the request does not open a wohnung block. */
  lemma BirthIsNoWohnung(geburtsdatum: string, y: string)
    ensures !(WohnungOpen <= BirthLines(geburtsdatum) + y)
  {
    var e := ElementText("jahrMonatTag", geburtsdatum);
    Nest3(BirthOpen, e, BirthClose, y);
    IndexInFront(BirthOpen, e + (BirthClose + y), 19);
    DifferAt(WohnungOpen, BirthLines(geburtsdatum) + y, 19);
  }

  /**
   * In the request doPost sends, the wohnung block is present exactly when
   * some address field is non-empty, and it then carries the whole address.
   */
  lemma SearchAddress(a: Address, geburtsdatum: string, y: string)
    ensures ReadAddress(AddressBlock(HasAddress(a), a) + (BirthLines(geburtsdatum) + y)) ==
            if a == Address("", "", "", "") then None else Some(a)
  {
    BirthIsNoWohnung(geburtsdatum, y);
    AddressBlockRoundTrip(HasAddress(a), a, BirthLines(geburtsdatum) + y);
  }

  /** Eight sections joined one after the other, regrouped after the second. */
  lemma RegroupSections(head: string, n: string, f: string, g: string, sc: string, co: string, cl: string, cc: string)
    ensures (((((((head + n) + f) + g) + sc) + co) + cl) + cc) == (head + n) + (f + (g + (sc + (co + (cl + cc)))))
  {
  }

  /** The text of the request header, up to the name section. */
  function RequestHead(uuid: string, timestamp: string): string
  {
    Prolog + HeaderText(uuid, timestamp) + Parties + SearchOpen
  }

  /** The text of the request from the address block on. */
  function AfterNames(geburtsdatum: string, hasAddress: bool, a: Address): string
  {
    AddressBlock(hasAddress, a) + (BirthLines(geburtsdatum) + (SearchClose + (ControlsOpen + (CodeLines(Codes()) + ControlsClose))))
  }

  /** The request is its header, the name section, then the rest from the address block on. */
  lemma RequestAfterNames(vorname: string, nachname: string, geburtsdatum: string, hasAddress: bool, a: Address,
                          uuid: string, timestamp: string)
    ensures RequestText(vorname, nachname, geburtsdatum, hasAddress, a, uuid, timestamp)
         == (RequestHead(uuid, timestamp) + NameLines(vorname, nachname)) + AfterNames(geburtsdatum, hasAddress, a)
  {
    RegroupSections(RequestHead(uuid, timestamp), NameLines(vorname, nachname), AddressBlock(hasAddress, a),
                    BirthLines(geburtsdatum), SearchClose, ControlsOpen, CodeLines(Codes()), ControlsClose);
  }

  /** The request doPost sends is the request text for the hasAddress rule. */
  lemma SearchRequestIsRequestText(vorname: string, nachname: string, geburtsdatum: string, a: Address,
                                   uuid: string, timestamp: string)
    ensures SearchRequest(vorname, nachname, geburtsdatum, a, uuid, timestamp)
         == RequestText(vorname, nachname, geburtsdatum, HasAddress(a), a, uuid, timestamp)
  {
  }

  /**
   * In the request doPost sends, the text after the name section (whose length
   * does not depend on the address) starts with the address block, present
   * exactly when some address field is non-empty, and it then carries the
   * whole address.
   */
  lemma RequestAddress(vorname: string, nachname: string, geburtsdatum: string, a: Address,
                       uuid: string, timestamp: string)
    ensures SearchRequest(vorname, nachname, geburtsdatum, a, uuid, timestamp)
         == (RequestHead(uuid, timestamp) + NameLines(vorname, nachname)) + AfterNames(geburtsdatum, HasAddress(a), a)
    ensures ReadAddress(AfterNames(geburtsdatum, HasAddress(a), a))
         == if a == Address("", "", "", "") then None else Some(a)
  {
    SearchRequestIsRequestText(vorname, nachname, geburtsdatum, a, uuid, timestamp);
    RequestAfterNames(vorname, nachname, geburtsdatum, HasAddress(a), a, uuid, timestamp);
    SearchAddress(a, geburtsdatum, SearchClose + (ControlsOpen + (CodeLines(Codes()) + ControlsClose)));
  }

  /** The codes of consecutive code lines, read until the first other line. */
  function ReadCodes(s: string): seq<nat>
    decreases |s|
  {
    match ReadElement(CodeLead, "code", CodeTrail, s)
    case Some((c, rest)) =>
      if c != [] && forall k :: 0 <= k < |c| ==> Decimal.IsDigit(c[k]) then
        [Decimal.DigitsValue(c)] + ReadCodes(rest)
      else []
    case None => []
  }

  /** A rendered number holds no markup. */
  lemma DigitsHaveNoMarkup(d: string)
    requires forall k :: 0 <= k < |d| ==> Decimal.IsDigit(d[k])
    ensures '<' !in d
  {
  }

  /** One code line gives back its code and leaves the text after it. */
  lemma ReadCodeStep(n: nat, tail: string)
    ensures ReadCodes(CodeLine(n) + tail) == [n] + ReadCodes(tail)
  {
    TagsArePlain();
    var d := Decimal.NatToString(n);
    DigitsHaveNoMarkup(d);
    ReadElementOf(CodeLead, "code", CodeTrail, d, tail);
    Decimal.NatRoundTrip(n);
  }

  /** Text that does not open with a code line holds no codes. */
  lemma ReadCodesNone(x: string)
    requires !(CodeLead + Open("code") <= x)
    ensures ReadCodes(x) == []
  {
    ReadElementNeedsOpen(CodeLead, "code", CodeTrail, x);
  }

  /** Code lines give back their codes, in order. */
  lemma {:induction false} ReadCodesOf(ns: seq<nat>, x: string)
    requires !(CodeLead + Open("code") <= x)
    ensures ReadCodes(CodeLines(ns) + x) == ns
  {
    if ns == [] {
      assert CodeLines(ns) + x == x;
      ReadCodesNone(x);
    } else {
      var line, tail := CodeLine(ns[0]), CodeLines(ns[1..]);
      assert CodeLines(ns) == line + tail;
      RegroupTail(line, tail, x);
      ReadCodeStep(ns[0], tail + x);
      ReadCodesOf(ns[1..], x);
      assert ReadCodes(CodeLines(ns) + x) == [ns[0]] + ns[1..];
    }
  }

  /** The request asks for exactly the data elements 1 to 10, 29, 33, 34, 35 and 37, in that order. */
  lemma RequestCodes()
    ensures ReadCodes(CodeLines(Codes()) + ControlsClose) == Codes()
  {
    IndexInFront(VerzichtOpen, "true</xmeld:verzichtAufMitteilung>\n", 15);
    IndexInFront(VerzichtLine, RootClose, 15);
    IndexInFront(CodeLead, Open("code"), 15);
    DifferAt(CodeLead + Open("code"), ControlsClose, 15);
    ReadCodesOf(Codes(), ControlsClose);
  }
}
