/** The free-text revision (`DNT.py`): services are one text area with one
    `name, description` pair per line. Every line holding a comma yields an
    offer, split at its first comma; there is no check on the name. */
module Dnt {
  import opened Results
  import opened Text
  import opened Json
  import opened Session
  import opened Lists
  import opened Schema
  import opened Markup

  /** The session state the builder reads. */
  datatype Form = Form(profile: Profile, services: string)

  /** One services line: `[p.strip() for p in line.split(",", 1)]` when
      `"," in line`, nothing otherwise. */
  function LineOffer(line: string): Option<Offer> {
    match SplitOnce(line, ',')
    case None => None
    case Some((name, desc)) => Some(Offer(Strip(name), Strip(desc)))
  }

  /** The services loop of `build_jsonld`. */
  function ServiceOffers(text: string): seq<Offer> {
    FilterMap(SplitLines(text), LineOffer)
  }

  /** A line yields an offer exactly when it holds a comma. The name is the
      stripped text before the first comma and the description the stripped
      rest, which may hold further commas. */
  lemma LineOfferSpec(line: string)
    ensures LineOffer(line).Some? <==> ',' in line
    ensures forall a, b | line == a + [','] + b && ',' !in a ::
      LineOffer(line) == Some(Offer(Strip(a), Strip(b)))
  {
    forall a, b | line == a + [','] + b && ',' !in a
      ensures LineOffer(line) == Some(Offer(Strip(a), Strip(b)))
    {
      SplitOnceJoin(a, ',', b);
    }
  }

  /** Unlike the structured revision, an empty name is kept: a line that
      starts with a comma still yields an offer. */
  lemma EmptyNameKept(desc: string)
    ensures LineOffer([','] + desc) == Some(Offer("", Strip(desc)))
  {
    SplitOnceJoin([], ',', desc);
    assert [] + [','] + desc == [','] + desc;
    assert Strip([]) == [];
  }

  /** Offers correspond one to one, in order, to the lines holding a comma:
      offer `k` comes from line `Picked(..)[k]`, and every other line has no
      comma. */
  lemma ServiceOffersSpec(text: string)
    ensures Selects(SplitLines(text), LineOffer, ServiceOffers(text), Picked(SplitLines(text), LineOffer))
    ensures forall j | 0 <= j < |SplitLines(text)| :: LineOffer(SplitLines(text)[j]).None? <==> ',' !in SplitLines(text)[j]
    ensures ServiceOffers(text) == [] <==> forall j | 0 <= j < |SplitLines(text)| :: ',' !in SplitLines(text)[j]
  {
    FilterMapSelects(SplitLines(text), LineOffer);
    FilterMapEmpty(SplitLines(text), LineOffer);
  }

  /** The services line that writes an offer down. */
  function OfferLine(o: Offer): string {
    o.name + [','] + (" " + o.description)
  }

  /** The services text's lines, one per offer. */
  function OfferLines(offers: seq<Offer>): seq<string> {
    Map(offers, OfferLine)
  }

  /** An offer the services text can express: no comma in the name, no line
      break anywhere, and nothing to strip. */
  ghost predicate Writable(o: Offer) {
    && ',' !in o.name && NoBreak(o.name) && IsStripped(o.name)
    && NoBreak(o.description) && IsStripped(o.description)
  }

  /** Reading back an offer's line gives the offer. */
  lemma LineOfferLine(o: Offer)
    requires Writable(o)
    ensures LineOffer(OfferLine(o)) == Some(o)
  {
    SplitOnceJoin(o.name, ',', " " + o.description);
    StripStripped(o.name);
    StripPadded(" ", o.description, []);
    assert " " + o.description + [] == " " + o.description;
  }

  /** Writing offers one per line as `name, description` and parsing the
      text gives back the same offers, in order. */
  lemma {:induction false} ServicesRoundTrip(offers: seq<Offer>)
    requires forall k | 0 <= k < |offers| :: Writable(offers[k])
    ensures ServiceOffers(JoinLines(OfferLines(offers))) == offers
  {
    var lines := OfferLines(offers);
    forall k | 0 <= k < |lines| ensures NoBreak(lines[k]) {
      var o := offers[k];
      assert lines[k] == o.name + [','] + (" " + o.description);
    }
    SplitJoinLines(lines);
    ReadOfferLines(offers);
  }

  /** Joining two services texts with a newline concatenates their offers:
      the line the newline may add is empty and has no comma. */
  lemma ServiceOffersAppend(a: string, b: string)
    ensures ServiceOffers(a + "\n" + b) == ServiceOffers(a) + ServiceOffers(b)
  {
    SplitFilterAppend(a, b, LineOffer);
  }

  /** Reading a list of written offer lines gives the offers back. */
  lemma ReadOfferLines(offers: seq<Offer>)
    requires forall k | 0 <= k < |offers| :: Writable(offers[k])
    ensures FilterMap(OfferLines(offers), LineOffer) == offers
  {
    var lines := OfferLines(offers);
    forall k | 0 <= k < |lines| ensures LineOffer(lines[k]) == Some(offers[k]) {
      LineOfferLine(offers[k]);
    }
    FilterMapAll(lines, LineOffer, offers);
  }

  /** `build_jsonld` up to `json.dumps`. */
  function BuildDocument(form: Form): Result<Json, Exception> {
    Build(form.profile, ServiceOffers(form.services))
  }

  /** The header of the free-text revision is the same literal: fixed
      context and type, the five scalar fields as entered and the address. */
  lemma DocumentHeader(form: Form)
    ensures BuildDocument(form).Success? ==>
      var doc := BuildDocument(form).value;
      var p := form.profile;
      && Member(doc, "@context") == Some(JString("https://schema.org"))
      && Member(doc, "@type") == Some(JString("LocalBusiness"))
      && Member(doc, "name") == Some(JString(p.name))
      && Member(doc, "url") == Some(JString(p.url))
      && Member(doc, "logo") == Some(JString(p.logo))
      && Member(doc, "description") == Some(JString(p.description))
      && Member(doc, "telephone") == Some(JString(p.telephone))
      && Member(doc, "address") == Some(AddressJson(p))
  {
    BuildHeader(form.profile, ServiceOffers(form.services));
  }

  /** `sameAs` and `areaServed` hold the stripped non-blank lines of their
      text, and are present exactly when there is one. */
  lemma DocumentLists(form: Form)
    ensures BuildDocument(form).Success? ==>
      var doc := BuildDocument(form).value;
      var p := form.profile;
      && Member(doc, "sameAs") ==
           (if ParseLines(p.socials) == [] then None else Some(JArray(Strings(ParseLines(p.socials)))))
      && Member(doc, "areaServed") ==
           (if ParseLines(p.areas) == [] then None else Some(JArray(Strings(ParseLines(p.areas)))))
  {
    BuildLists(form.profile, ServiceOffers(form.services));
  }

  /** The hours loop of the free-text revision: the document is built
      exactly when every enabled day has both times, and its opening hours
      are then one entry per enabled day, Monday to Sunday, absent when no
      day is enabled. */
  lemma DocumentHours(form: Form)
    ensures BuildDocument(form).Success? <==> TimesComplete(form.profile.hours)
    ensures BuildDocument(form).Success? ==>
      var h := form.profile.hours;
      && (forall d | d in EnabledDays(h) :: HasTimes(h, d))
      && (forall i, j | 0 <= i < j < |EnabledDays(h)| :: Ordinal(EnabledDays(h)[i]) < Ordinal(EnabledDays(h)[j]))
      && Member(BuildDocument(form).value, "openingHoursSpecification") ==
           (if EnabledDays(h) == [] then None else Some(JArray(EntriesFor(h, EnabledDays(h)))))
  {
    BuildSpec(form.profile, ServiceOffers(form.services));
    OpeningHoursSpec(form.profile.hours);
  }

  /** `build_jsonld`: the document serialized by `dumps` (standing for
      `json.dumps(schema, indent=2)`) inside the script tag. */
  function BuildJsonLd(form: Form, dumps: Json -> string): Result<string, Exception> {
    var doc :- BuildDocument(form);
    Success(Wrap(dumps(doc)))
  }

  /** The generated block fails exactly when the document does; otherwise
      stripping the tags gives back the serialized document, and the catalog
      is present exactly when some services line holds a comma. */
  lemma BuildJsonLdSpec(form: Form, dumps: Json -> string)
    ensures BuildJsonLd(form, dumps).Success? <==> BuildDocument(form).Success?
    ensures BuildJsonLd(form, dumps).Failure? ==> BuildJsonLd(form, dumps).error == BuildDocument(form).error
    ensures BuildJsonLd(form, dumps).Success? ==>
      && Unwrap(BuildJsonLd(form, dumps).value) == Some(dumps(BuildDocument(form).value))
      && (Member(BuildDocument(form).value, "hasOfferCatalog").Some? <==>
            exists j | 0 <= j < |SplitLines(form.services)| :: ',' in SplitLines(form.services)[j])
  {
    if BuildDocument(form).Success? {
      UnwrapWrap(dumps(BuildDocument(form).value));
      BuildSpec(form.profile, ServiceOffers(form.services));
      ServiceOffersSpec(form.services);
    }
  }
}
