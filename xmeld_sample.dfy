/**
 * The sample 1333 answer of the connector test, as the tree the parser
 * builds from it, and the answer the decoder gives for it.
 */
module XMeldSample {
  import opened Wrappers
  import opened Dom
  import opened XMeldResponse

  const XinkNs: string := "http://www.osci.de/xinneres/basisnachricht/5"


  /** Child i of the sample's anschrift: indentation at even places, one field leaf at odd places. */
  function AnschriftChild(i: nat): Node
    requires i < 13
  {
    if i % 2 == 1 then Element(XMeldNs, AddressTags[i / 2], [Text(AddressValues[i / 2])])
    else if i == 12 then Text("            ")
    else Text("              ")
  }

  function SampleAnschrift(): Node
  {
    Element(XMeldNs, "anschrift", seq(13, i requires 0 <= i < 13 => AnschriftChild(i)))
  }

  function SampleWohnung(): Node { Element(XMeldNs, "wohnung", [Text("            "), SampleAnschrift(), Text("          ")]) }
  function SampleFamilienname(): Node { Element(XMeldNs, "familienname", [Element(XMeldNs, "name", [Text("Mustermann")])]) }
  function SampleVornamen(): Node { Element(XMeldNs, "vornamen", [Element(XMeldNs, "name", [Text("Max")])]) }

  function SamplePerson(): Node
  {
    Element(XMeldNs, "natuerlichePerson", [
      Text("          "), SampleFamilienname(),
      Text("          "), SampleVornamen(),
      Text("          "), SampleWohnung(),
      Text("        ")])
  }

  function SampleTreffer(): Node { Element(XMeldNs, "treffer", [Text("        "), SamplePerson(), Text("      ")]) }
  function SampleListe(): Node { Element(XMeldNs, "trefferliste", [Text("      "), SampleTreffer(), Text("    ")]) }
  function SampleErgebnis(): Node { Element(XMeldNs, "ergebnis", [Text("    "), SampleListe(), Text("  ")]) }

  function SampleKopf(): Node
  {
    Element(XinkNs, "nachrichtenkopf", [
      Text("    "), Element(XinkNs, "nachrichtencode", [Text("1333")]), Text("  ")])
  }

  function SampleDoc(): Node
  {
    Element(XMeldNs, "meldeauskunft.antwort.1333", [Text("  "), SampleKopf(), Text("  "), SampleErgebnis()])
  }

  /** The first match among a node's descendants, found tree by tree. */
  lemma FirstByCollect(n: Node, tag: string)
    ensures First(Descendants(n), AnyNs, tag) ==
      if Collect(n, AnyNs, tag) == [] then None else Some(Collect(n, AnyNs, tag)[0])
  {
    CollectIsFilter(n, AnyNs, tag);
  }

  /** getDeepValue through the first element collected below n. */
  lemma DeepValueOf(n: Node, tag: string, leaf: Node)
    requires Collect(n, AnyNs, tag) != [] && Collect(n, AnyNs, tag)[0] == leaf
    ensures GetDeepValue(n, tag) == TextContent(leaf)
  {
    FirstByCollect(n, tag);
  }

  /** getNestedValue through the first element collected below n. */
  lemma NestedValueOf(n: Node, outer: string, inner: string, e: Node)
    requires Collect(n, AnyNs, outer) != [] && Collect(n, AnyNs, outer)[0] == e
    ensures GetNestedValue(n, outer, inner) == GetTextContent(e, inner)
  {
    FirstByCollect(n, outer);
  }

  /** An element with one text child holds no element. */
  lemma LeafHoldsNothing(n: Node, pat: NsPattern, tag: string)
    requires n.Element? && |n.children| == 1 && n.children[0].Text?
    ensures Collect(n, pat, tag) == []
    ensures TextContent(n) == n.children[0].data
  {
    CollectForestNone(n.children, pat, tag);
    assert ForestText(n.children) == n.children[0].data + ForestText([]);
  }

  /** The address fields of the sample, in the order of its anschrift element. */
  const AddressTags: seq<string> := ["strasse", "hausnummer", "postleitzahl", "ort", "gemeindeschluessel", "statusWohnung"]

  /** Their values in the sample. */
  const AddressValues: seq<string> := ["Musterstraße", "12", "12345", "Musterstadt", "09123456", "F"]

  /** The children of the anschrift hold no element, and only a leaf at an odd place has a name. */
  lemma AnschriftChildFacts(i: nat, pat: NsPattern, tag: string)
    requires i < 13
    ensures Collect(AnschriftChild(i), pat, tag) == []
    ensures Named(AnschriftChild(i), pat, tag) ==> i % 2 == 1 && tag == AddressTags[i / 2]
  {
    if i % 2 == 1 {
      LeafHoldsNothing(AnschriftChild(i), pat, tag);
    }
  }

  lemma AnschriftLacks(pat: NsPattern, tag: string)
    requires tag !in AddressTags
    ensures Collect(SampleAnschrift(), pat, tag) == []
  {
    var cs := SampleAnschrift().children;
    forall i | 0 <= i < |cs| ensures !Named(cs[i], pat, tag) && Collect(cs[i], pat, tag) == [] {
      AnschriftChildFacts(i, pat, tag);
    }
    CollectForestNone(cs, pat, tag);
  }

  /** The address tags differ pairwise (they even differ in length). */
  lemma AddressTagsDistinct(i: nat, j: nat)
    requires i < 6 && j < 6 && i != j
    ensures AddressTags[i] != AddressTags[j]
  {
    assert |AddressTags[i]| != |AddressTags[j]|;
  }

  lemma AnschriftOthers(k: nat)
    requires k < 6
    ensures var cs := SampleAnschrift().children;
      forall i :: 0 <= i < |cs| && i != 2 * k + 1 ==> !Named(cs[i], AnyNs, AddressTags[k]) && Collect(cs[i], AnyNs, AddressTags[k]) == []
  {
    var cs := SampleAnschrift().children;
    forall i | 0 <= i < |cs| && i != 2 * k + 1
      ensures !Named(cs[i], AnyNs, AddressTags[k]) && Collect(cs[i], AnyNs, AddressTags[k]) == []
    {
      AnschriftChildFacts(i, AnyNs, AddressTags[k]);
      if i % 2 == 1 {
        AddressTagsDistinct(i / 2, k);
      }
    }
  }

  lemma AnschriftField(k: nat)
    requires k < 6
    ensures Collect(SampleAnschrift(), AnyNs, AddressTags[k]) == [AnschriftChild(2 * k + 1)]
  {
    assert (2 * k + 1) / 2 == k;
    AnschriftOthers(k);
    AnschriftChildFacts(2 * k + 1, AnyNs, AddressTags[k]);
    CollectForestOnly(SampleAnschrift().children, 2 * k + 1, AnyNs, AddressTags[k]);
  }

  lemma WohnungThrough(pat: NsPattern, tag: string)
    requires tag != "anschrift"
    ensures Collect(SampleWohnung(), pat, tag) == Collect(SampleAnschrift(), pat, tag)
  {
    CollectForestOnly(SampleWohnung().children, 1, pat, tag);
  }

  lemma NamesLack(pat: NsPattern, tag: string)
    requires tag != "name"
    ensures Collect(SampleFamilienname(), pat, tag) == [] && Collect(SampleVornamen(), pat, tag) == []
  {
    LeafHoldsNothing(SampleFamilienname().children[0], pat, tag);
    LeafHoldsNothing(SampleVornamen().children[0], pat, tag);
    CollectForestNone(SampleFamilienname().children, pat, tag);
    CollectForestNone(SampleVornamen().children, pat, tag);
  }

  lemma PersonThrough(pat: NsPattern, tag: string)
    requires tag != "familienname" && tag != "vornamen" && tag != "name" && tag != "wohnung" && tag != "natuerlichePerson"
    ensures Collect(SampleTreffer(), pat, tag) == Collect(SampleWohnung(), pat, tag)
  {
    PersonIsWohnung(pat, tag);
    TrefferIsPerson(pat, tag);
  }

  lemma PersonIsWohnung(pat: NsPattern, tag: string)
    requires tag != "familienname" && tag != "vornamen" && tag != "name" && tag != "wohnung"
    ensures Collect(SamplePerson(), pat, tag) == Collect(SampleWohnung(), pat, tag)
  {
    NamesLack(pat, tag);
    CollectForestOnly(SamplePerson().children, 5, pat, tag);
  }

  lemma AddressTagIsDeep(k: nat)
    requires k < 6
    ensures var tag := AddressTags[k];
      tag != "anschrift" && tag != "familienname" && tag != "vornamen" && tag != "name" &&
      tag != "wohnung" && tag != "natuerlichePerson"
  {
  }

  lemma WohnungField(k: nat)
    requires k < 6
    ensures Collect(SampleWohnung(), AnyNs, AddressTags[k]) == [AnschriftChild(2 * k + 1)]
  {
    AddressTagIsDeep(k);
    AnschriftField(k);
    WohnungThrough(AnyNs, AddressTags[k]);
  }

  lemma TrefferField(k: nat)
    requires k < 6
    ensures Collect(SampleTreffer(), AnyNs, AddressTags[k]) == Collect(SampleWohnung(), AnyNs, AddressTags[k])
  {
    AddressTagIsDeep(k);
    PersonThrough(AnyNs, AddressTags[k]);
  }

  lemma TrefferAddressLeaf(k: nat)
    requires k < 6
    ensures Collect(SampleTreffer(), AnyNs, AddressTags[k]) == [AnschriftChild(2 * k + 1)]
  {
    WohnungField(k);
    TrefferField(k);
  }

  /** Each address field of the sample hit is the text of its leaf in the anschrift element. */
  lemma SampleAddressField(k: nat)
    requires k < 6
    ensures GetDeepValue(SampleTreffer(), AddressTags[k]) == AddressValues[k]
  {
    assert (2 * k + 1) / 2 == k;
    TrefferAddressLeaf(k);
    DeepValueOf(SampleTreffer(), AddressTags[k], AnschriftChild(2 * k + 1));
    LeafHoldsNothing(AnschriftChild(2 * k + 1), AnyNs, AddressTags[k]);
  }

  lemma WohnungLacksNames(pat: NsPattern, tag: string)
    requires tag == "familienname" || tag == "vornamen"
    ensures Collect(SampleWohnung(), pat, tag) == []
  {
    AnschriftLacks(pat, tag);
    WohnungThrough(pat, tag);
  }

  lemma TrefferIsPerson(pat: NsPattern, tag: string)
    requires tag != "natuerlichePerson"
    ensures Collect(SampleTreffer(), pat, tag) == Collect(SamplePerson(), pat, tag)
  {
    CollectForestOnly(SampleTreffer().children, 1, pat, tag);
  }

  lemma WohnungIsNoName(tag: string)
    requires tag == "familienname" || tag == "vornamen"
    ensures !Named(SampleWohnung(), AnyNs, tag)
  {
    assert SampleWohnung().local == "wohnung";
  }

  /** The person's fifth child is its wohnung. */
  lemma PersonWohnung()
    ensures SamplePerson().children[5] == SampleWohnung()
  {
  }

  /** The children of the person element other than the one at k hold no element named tag. */
  lemma PersonOthers(k: nat, tag: string)
    requires (k == 1 && tag == "familienname") || (k == 3 && tag == "vornamen")
    ensures var cs := SamplePerson().children;
      forall i :: 0 <= i < |cs| && i != k ==> !Named(cs[i], AnyNs, tag) && Collect(cs[i], AnyNs, tag) == []
  {
    var cs := SamplePerson().children;
    forall i | 0 <= i < |cs| && i != k
      ensures !Named(cs[i], AnyNs, tag) && Collect(cs[i], AnyNs, tag) == []
    {
      if i == 5 {
        PersonChild5(tag);
      } else if i == 1 || i == 3 {
        PersonNameChild(i, tag);
      } else {
        PersonTextChild(i);
      }
    }
  }

  lemma PersonChild5(tag: string)
    requires tag == "familienname" || tag == "vornamen"
    ensures var cs := SamplePerson().children;
      !Named(cs[5], AnyNs, tag) && Collect(cs[5], AnyNs, tag) == []
  {
    PersonWohnung();
    WohnungLacksNames(AnyNs, tag);
    WohnungIsNoName(tag);
  }

  lemma PersonNameChild(i: nat, tag: string)
    requires (i == 1 && tag == "vornamen") || (i == 3 && tag == "familienname")
    ensures var cs := SamplePerson().children;
      !Named(cs[i], AnyNs, tag) && Collect(cs[i], AnyNs, tag) == []
  {
    NamesLack(AnyNs, tag);
  }

  lemma PersonTextChild(i: nat)
    requires i == 0 || i == 2 || i == 4 || i == 6
    ensures SamplePerson().children[i].Text?
  {
  }

  lemma PersonOnly(k: nat, tag: string)
    requires (k == 1 && tag == "familienname") || (k == 3 && tag == "vornamen")
    ensures Collect(SamplePerson(), AnyNs, tag) == [SamplePerson().children[k]]
  {
    PersonOthers(k, tag);
    NamesLack(AnyNs, tag);
    CollectForestOnly(SamplePerson().children, k, AnyNs, tag);
  }

  lemma PersonFamilienname()
    ensures Collect(SamplePerson(), AnyNs, "familienname") == [SampleFamilienname()]
  {
    PersonOnly(1, "familienname");
  }

  lemma PersonVornamen()
    ensures Collect(SamplePerson(), AnyNs, "vornamen") == [SampleVornamen()]
  {
    PersonOnly(3, "vornamen");
  }

  lemma FamiliennameFirst()
    ensures Collect(SampleTreffer(), AnyNs, "familienname") == [SampleFamilienname()]
  {
    PersonFamilienname();
    TrefferIsPerson(AnyNs, "familienname");
  }

  lemma VornamenFirst()
    ensures Collect(SampleTreffer(), AnyNs, "vornamen") == [SampleVornamen()]
  {
    PersonVornamen();
    TrefferIsPerson(AnyNs, "vornamen");
  }

  /** The one name inside an element holding a single name leaf. */
  lemma NameInside(n: Node)
    requires n.Element? && |n.children| == 1
    requires n.children[0].Element? && n.children[0].local == "name"
    requires |n.children[0].children| == 1 && n.children[0].children[0].Text?
    ensures GetTextContent(n, "name") == n.children[0].children[0].data
  {
    LeafHoldsNothing(n.children[0], AnyNs, "name");
    CollectForestOnly(n.children, 0, AnyNs, "name");
    FirstByCollect(n, "name");
  }

  /** The name fields of the sample hit. */
  lemma SampleNameFields()
    ensures GetNestedValue(SampleTreffer(), "familienname", "name") == "Mustermann"
    ensures GetNestedValue(SampleTreffer(), "vornamen", "name") == "Max"
  {
    FamiliennameFirst();
    VornamenFirst();
    NestedValueOf(SampleTreffer(), "familienname", "name", SampleFamilienname());
    NestedValueOf(SampleTreffer(), "vornamen", "name", SampleVornamen());
    NameInside(SampleFamilienname());
    NameInside(SampleVornamen());
  }

  lemma SampleStrasse() ensures GetDeepValue(SampleTreffer(), "strasse") == "Musterstraße" { SampleAddressField(0); }
  lemma SampleHausnummer() ensures GetDeepValue(SampleTreffer(), "hausnummer") == "12" { SampleAddressField(1); }
  lemma SamplePostleitzahl() ensures GetDeepValue(SampleTreffer(), "postleitzahl") == "12345" { SampleAddressField(2); }
  lemma SampleOrt() ensures GetDeepValue(SampleTreffer(), "ort") == "Musterstadt" { SampleAddressField(3); }
  lemma SampleGemeindeschluessel() ensures GetDeepValue(SampleTreffer(), "gemeindeschluessel") == "09123456" { SampleAddressField(4); }
  lemma SampleStatusWohnung() ensures GetDeepValue(SampleTreffer(), "statusWohnung") == "F" { SampleAddressField(5); }

  /** The field values the connector test expects of the sample's hit. */
  lemma SampleHit()
    ensures Hit(SampleTreffer()) == map[
      "nachname" := JString("Mustermann"), "vorname" := JString("Max"),
      "strasse" := JString("Musterstraße"), "hausnummer" := JString("12"),
      "plz" := JString("12345"), "ort" := JString("Musterstadt"),
      "ags" := JString("09123456"), "wohnungStatus" := JString("F")]
  {
    SampleNameFields();
    SampleStrasse();
    SampleHausnummer();
    SamplePostleitzahl();
    SampleOrt();
    SampleGemeindeschluessel();
    SampleStatusWohnung();
  }

  /** A document without error elements whose XMeld treffer elements are collected as hits decodes to them. */
  lemma DecodeByCollect(input: string, doc: Node, hits: seq<Node>)
    requires !Named(doc, AnyNs, "fehlermeldung") && Collect(doc, AnyNs, "fehlermeldung") == []
    requires !Named(doc, Exactly(XMeldNs), "treffer") && Collect(doc, Exactly(XMeldNs), "treffer") == hits && hits != []
    ensures Decode(input, Some(doc)) == Success(SuccessJson(input, hits))
  {
    CollectIsFilter(doc, AnyNs, "fehlermeldung");
    CollectIsFilter(doc, Exactly(XMeldNs), "treffer");
    FilterAppend([doc], Descendants(doc), AnyNs, "fehlermeldung");
    FilterAppend([doc], Descendants(doc), Exactly(XMeldNs), "treffer");
  }

  /** The sample decodes to SUCCESS with its one hit. */
  lemma SampleDecodes(input: string)
    ensures Decode(input, Some(SampleDoc())) == Success(SuccessJson(input, [SampleTreffer()]))
  {
    SampleLacksFehlermeldung();
    SampleHasOneTreffer();
    DecodeByCollect(input, SampleDoc(), [SampleTreffer()]);
  }

  lemma KopfLacks(pat: NsPattern, tag: string)
    requires tag != "nachrichtencode"
    ensures Collect(SampleKopf(), pat, tag) == []
  {
    LeafHoldsNothing(SampleKopf().children[1], pat, tag);
    CollectForestNone(SampleKopf().children, pat, tag);
  }

  lemma TrefferLacksFehlermeldung()
    ensures Collect(SampleTreffer(), AnyNs, "fehlermeldung") == []
  {
    AnschriftLacks(AnyNs, "fehlermeldung");
    WohnungThrough(AnyNs, "fehlermeldung");
    PersonThrough(AnyNs, "fehlermeldung");
  }

  lemma SampleLacksFehlermeldung()
    ensures Collect(SampleDoc(), AnyNs, "fehlermeldung") == []
  {
    var tag := "fehlermeldung";
    KopfLacks(AnyNs, tag);
    TrefferLacksFehlermeldung();
    CollectForestNone(SampleListe().children, AnyNs, tag);
    CollectForestNone(SampleErgebnis().children, AnyNs, tag);
    CollectForestNone(SampleDoc().children, AnyNs, tag);
  }

  lemma TrefferHoldsNoTreffer()
    ensures Collect(SampleTreffer(), Exactly(XMeldNs), "treffer") == []
  {
    AnschriftLacks(Exactly(XMeldNs), "treffer");
    WohnungThrough(Exactly(XMeldNs), "treffer");
    PersonThrough(Exactly(XMeldNs), "treffer");
  }

  lemma SampleHasOneTreffer()
    ensures Collect(SampleDoc(), Exactly(XMeldNs), "treffer") == [SampleTreffer()]
  {
    var pat := Exactly(XMeldNs);
    var tag := "treffer";
    KopfLacks(pat, tag);
    TrefferHoldsNoTreffer();
    CollectForestOnly(SampleListe().children, 1, pat, tag);
    CollectForestOnly(SampleErgebnis().children, 1, pat, tag);
    CollectForestOnly(SampleDoc().children, 3, pat, tag);
  }
}
