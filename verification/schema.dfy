/** The part of `build_jsonld` that both revisions share: the fixed header
    with the profile and address, the `sameAs` and `areaServed` lists, the
    opening hours, the offer catalog and the order in which the optional
    keys are added. Only the way the offers are obtained differs between
    the revisions (modules `App` and `Dnt`). */
module Schema {
  import opened Results
  import opened Text
  import opened Clock
  import opened Json
  import opened Session
  import opened Lists

  const Context: string := "https://schema.org"

  /** A list of strings as a JSON array's items. */
  function Strings(xs: seq<string>): seq<Json> {
    Map(xs, (x: string) => JString(x))
  }

  /** The `address` object, always built from the five address fields. */
  function AddressJson(p: Profile): Json {
    JObject([
      Field("@type", JString("PostalAddress")),
      Field("streetAddress", JString(p.street)),
      Field("addressLocality", JString(p.city)),
      Field("addressRegion", JString(p.region)),
      Field("postalCode", JString(p.postal)),
      Field("addressCountry", JString(p.country))])
  }

  /** The dict literal the document starts from; every value is emitted as
      it is, empty strings included. */
  function Header(p: Profile): seq<Field> {
    [ Field("@context", JString(Context)),
      Field("@type", JString("LocalBusiness")),
      Field("name", JString(p.name)),
      Field("url", JString(p.url)),
      Field("logo", JString(p.logo)),
      Field("description", JString(p.description)),
      Field("telephone", JString(p.telephone)),
      Field("address", AddressJson(p))]
  }

  const HeaderKeys: seq<string> :=
    ["@context", "@type", "name", "url", "logo", "description", "telephone", "address"]

  /** One `OpeningHoursSpecification`, with the bare day name. */
  function HoursEntry(d: Weekday, opens: TimeOfDay, closes: TimeOfDay): Json {
    JObject([
      Field("@type", JString("OpeningHoursSpecification")),
      Field("dayOfWeek", JString(DayName(d))),
      Field("opens", JString(FormatHHMM(opens))),
      Field("closes", JString(FormatHHMM(closes)))])
  }

  /** Both time widgets of the day exist. */
  predicate HasTimes(h: Hours, d: Weekday) {
    d in h.opens && d in h.closes
  }

  /** Every day whose toggle is on has both of its times. */
  ghost predicate TimesComplete(h: Hours) {
    forall d :: IsChecked(h, d) ==> HasTimes(h, d)
  }

  /** The days of `days` whose toggle is on, in the same order. */
  function CheckedDays(h: Hours, days: seq<Weekday>): (r: seq<Weekday>)
    ensures |r| <= |days|
    ensures forall d :: d in r <==> d in days && IsChecked(h, d)
  {
    if days == [] then []
    else
      var rest := CheckedDays(h, days[1..]);
      assert forall d :: d in days <==> d == days[0] || d in days[1..];
      (if IsChecked(h, days[0]) then [days[0]] else []) + rest
  }

  /** The enabled days of the week. */
  function EnabledDays(h: Hours): seq<Weekday> {
    CheckedDays(h, Week)
  }

  /** One opening-hours entry per day of `days`, in order. */
  function EntriesFor(h: Hours, days: seq<Weekday>): (r: seq<Json>)
    requires forall d | d in days :: HasTimes(h, d)
    ensures |r| == |days|
  {
    if days == [] then []
    else
      var d := days[0];
      assert d in days && HasTimes(h, d);
      [HoursEntry(d, h.opens[d], h.closes[d])] + EntriesFor(h, days[1..])
  }

  /** The exception the hours loop raises for an enabled day lacking a time:
      the opening time is read before the closing one. */
  function MissingKey(h: Hours, d: Weekday): Exception {
    if d !in h.opens then KeyError(OpenKey(d)) else KeyError(CloseKey(d))
  }

  /** The opening-hours loop over `days`: enabled days contribute an entry;
      a missing time of an enabled day raises `KeyError`. */
  function HoursOf(h: Hours, days: seq<Weekday>): Result<seq<Json>, Exception> {
    if days == [] then Success([])
    else
      var d := days[0];
      if !IsChecked(h, d) then HoursOf(h, days[1..])
      else if !HasTimes(h, d) then Failure(MissingKey(h, d))
      else
        var rest :- HoursOf(h, days[1..]);
        Success([HoursEntry(d, h.opens[d], h.closes[d])] + rest)
  }

  /** The loop over the week, Monday to Sunday. */
  function OpeningHours(h: Hours): Result<seq<Json>, Exception> {
    HoursOf(h, Week)
  }

  /** `days[i]` is the first enabled day of `days` that lacks a time. */
  ghost predicate FirstMissing(h: Hours, days: seq<Weekday>, i: int) {
    && 0 <= i < |days|
    && IsChecked(h, days[i]) && !HasTimes(h, days[i])
    && forall j | 0 <= j < i :: IsChecked(h, days[j]) ==> HasTimes(h, days[j])
  }

  /** The hours loop succeeds exactly when every enabled day of `days` has
      both of its times. */
  lemma {:induction false} HoursOfSucceeds(h: Hours, days: seq<Weekday>)
    ensures HoursOf(h, days).Success? <==> forall d | d in days && IsChecked(h, d) :: HasTimes(h, d)
  {
    if days != [] {
      HoursOfSucceeds(h, days[1..]);
      assert forall d :: d in days <==> d == days[0] || d in days[1..];
    }
  }

  /** On success the hours loop is "keep the enabled days, then render each":
      one entry per enabled day, in the order of `days`. */
  lemma {:induction false} HoursOfValue(h: Hours, days: seq<Weekday>)
    requires HoursOf(h, days).Success?
    ensures forall d | d in CheckedDays(h, days) :: HasTimes(h, d)
    ensures HoursOf(h, days).value == EntriesFor(h, CheckedDays(h, days))
  {
    HoursOfSucceeds(h, days);
    if days != [] {
      var d := days[0];
      assert forall d :: d in days <==> d == days[0] || d in days[1..];
      HoursOfSucceeds(h, days[1..]);
      HoursOfValue(h, days[1..]);
      if IsChecked(h, d) {
        var rest := CheckedDays(h, days[1..]);
        var e := CheckedDays(h, days);
        assert e == [d] + rest;
        assert e[0] == d && e[1..] == rest;
        assert HoursOf(h, days).value == [HoursEntry(d, h.opens[d], h.closes[d])] + HoursOf(h, days[1..]).value;
        assert EntriesFor(h, e) == [HoursEntry(d, h.opens[d], h.closes[d])] + EntriesFor(h, rest);
      } else {
        assert CheckedDays(h, days) == CheckedDays(h, days[1..]);
      }
    }
  }

  /** When the hours loop raises, it is for the first enabled day lacking a
      time, and the key it names is that day's missing widget. */
  lemma {:induction false} HoursOfError(h: Hours, days: seq<Weekday>)
    ensures HoursOf(h, days).Failure? ==>
      exists i :: FirstMissing(h, days, i) && HoursOf(h, days).error == MissingKey(h, days[i])
  {
    if days != [] && HoursOf(h, days).Failure? {
      var d := days[0];
      if IsChecked(h, d) && !HasTimes(h, d) {
        assert FirstMissing(h, days, 0);
      } else {
        HoursOfError(h, days[1..]);
        var i :| FirstMissing(h, days[1..], i) && HoursOf(h, days[1..]).error == MissingKey(h, days[1..][i]);
        assert days[1..][i] == days[i + 1];
        assert forall j | 0 < j <= i :: days[j] == days[1..][j - 1];
        assert FirstMissing(h, days, i + 1);
      }
    }
  }

  /** Days in strictly increasing weekday order. */
  ghost predicate InWeekOrder(ds: seq<Weekday>) {
    forall i, j | 0 <= i < j < |ds| :: Ordinal(ds[i]) < Ordinal(ds[j])
  }

  lemma WeekInOrder()
    ensures InWeekOrder(Week)
  {
  }

  /** The tail of an ordered list is ordered and comes after its head. */
  lemma OrderTail(days: seq<Weekday>)
    requires days != [] && InWeekOrder(days)
    ensures InWeekOrder(days[1..])
    ensures forall d | d in days[1..] :: Ordinal(days[0]) < Ordinal(d)
  {
    assert forall i | 0 <= i < |days[1..]| :: days[1..][i] == days[i + 1];
  }

  /** A day before every day of an ordered list can go in front of it. */
  lemma OrderCons(x: Weekday, rest: seq<Weekday>)
    requires InWeekOrder(rest)
    requires forall d | d in rest :: Ordinal(x) < Ordinal(d)
    ensures InWeekOrder([x] + rest)
  {
    var e := [x] + rest;
    forall i, j | 0 <= i < j < |e| ensures Ordinal(e[i]) < Ordinal(e[j]) {
      assert e[j] == rest[j - 1] && e[j] in rest;
      if 0 < i {
        assert e[i] == rest[i - 1];
      }
    }
  }

  /** Keeping the enabled days keeps the weekday order. */
  lemma {:induction false} CheckedInOrder(h: Hours, days: seq<Weekday>)
    requires InWeekOrder(days)
    ensures InWeekOrder(CheckedDays(h, days))
  {
    if days != [] {
      OrderTail(days);
      CheckedInOrder(h, days[1..]);
      var rest := CheckedDays(h, days[1..]);
      if IsChecked(h, days[0]) {
        assert CheckedDays(h, days) == [days[0]] + rest;
        OrderCons(days[0], rest);
      } else {
        assert CheckedDays(h, days) == rest;
      }
    }
  }

  /** The opening hours over the week: the call succeeds exactly when every
      enabled day has both times; its entries are then those of the enabled
      days, in Monday-to-Sunday order, one per day; and there are none exactly
      when no day is enabled. */
  lemma OpeningHoursSpec(h: Hours)
    ensures OpeningHours(h).Success? <==> TimesComplete(h)
    ensures forall d :: d in EnabledDays(h) <==> IsChecked(h, d)
    ensures forall i, j | 0 <= i < j < |EnabledDays(h)| :: Ordinal(EnabledDays(h)[i]) < Ordinal(EnabledDays(h)[j])
    ensures OpeningHours(h).Success? ==>
      && (forall d | d in EnabledDays(h) :: HasTimes(h, d))
      && OpeningHours(h).value == EntriesFor(h, EnabledDays(h))
      && (OpeningHours(h).value == [] <==> forall d :: !IsChecked(h, d))
  {
    HoursOfSucceeds(h, Week);
    WeekInOrder();
    CheckedInOrder(h, Week);
    assert forall d :: d in Week by {
      forall d ensures d in Week {
        assert Week[Ordinal(d)] == d;
      }
    }
    if OpeningHours(h).Success? {
      HoursOfValue(h, Week);
      if EnabledDays(h) != [] {
        assert EnabledDays(h)[0] in EnabledDays(h);
      }
    }
  }

  /** Reads an opening-hours entry back: its day and both times, or `None`
      when a member is missing or malformed. */
  function ReadHoursEntry(j: Json): Option<(Weekday, TimeOfDay, TimeOfDay)> {
    var day := Member(j, "dayOfWeek");
    var opens := Member(j, "opens");
    var closes := Member(j, "closes");
    if day.Some? && day.value.JString? && opens.Some? && opens.value.JString? && closes.Some? && closes.value.JString? then
      match (DayOfName(day.value.str), ParseHHMM(opens.value.str), ParseHHMM(closes.value.str))
      case (Some(d), Some(o), Some(c)) => Some((d, o, c))
      case _ => None
    else
      None
  }

  /** The members of an opening-hours entry. */
  lemma HoursEntryMembers(d: Weekday, opens: TimeOfDay, closes: TimeOfDay)
    ensures var j := HoursEntry(d, opens, closes);
      && Member(j, "@type") == Some(JString("OpeningHoursSpecification"))
      && Member(j, "dayOfWeek") == Some(JString(DayName(d)))
      && Member(j, "opens") == Some(JString(FormatHHMM(opens)))
      && Member(j, "closes") == Some(JString(FormatHHMM(closes)))
  {
    var fs := HoursEntry(d, opens, closes).fields;
    GetAt(fs, 0, "@type");
    GetAt(fs, 1, "dayOfWeek");
    GetAt(fs, 2, "opens");
    GetAt(fs, 3, "closes");
  }

  /** Every opening-hours entry is typed and carries its day's name and both
      times as `HH:MM` strings that read back as the entered times. */
  lemma HoursEntryRead(d: Weekday, opens: TimeOfDay, closes: TimeOfDay)
    ensures Member(HoursEntry(d, opens, closes), "@type") == Some(JString("OpeningHoursSpecification"))
    ensures ReadHoursEntry(HoursEntry(d, opens, closes)) == Some((d, opens, closes))
  {
    HoursEntryMembers(d, opens, closes);
    DayOfNameRoundTrip(d);
    ParseFormat(opens);
    ParseFormat(closes);
  }

  /** A service offered, as it appears in the catalog. */
  datatype Offer = Offer(name: string, description: string)

  /** `{"@type": "Offer", "itemOffered": {"@type": "Service", ...}}`; the
      description is emitted even when empty. */
  function OfferJson(o: Offer): Json {
    JObject([
      Field("@type", JString("Offer")),
      Field("itemOffered", JObject([
        Field("@type", JString("Service")),
        Field("name", JString(o.name)),
        Field("description", JString(o.description))]))])
  }

  /** The catalog's items, one per offer. */
  function OffersJson(offers: seq<Offer>): seq<Json> {
    Map(offers, OfferJson)
  }

  /** The `hasOfferCatalog` object. */
  function CatalogJson(offers: seq<Offer>): Json {
    JObject([
      Field("@type", JString("OfferCatalog")),
      Field("name", JString("Our Services")),
      Field("itemListElement", JArray(OffersJson(offers)))])
  }

  /** Reads an offer back out of its JSON form. */
  function ReadOffer(j: Json): Option<Offer> {
    var item := Member(j, "itemOffered");
    if item.None? then None
    else
      var n := Member(item.value, "name");
      var d := Member(item.value, "description");
      if n.Some? && n.value.JString? && d.Some? && d.value.JString? then
        Some(Offer(n.value.str, d.value.str))
      else
        None
  }

  /** Every catalog entry carries its service's name and description. */
  lemma ReadOfferJson(o: Offer)
    ensures ReadOffer(OfferJson(o)) == Some(o)
    ensures Member(OfferJson(o), "@type") == Some(JString("Offer"))
  {
    var fs := OfferJson(o).fields;
    GetAt(fs, 0, "@type");
    GetAt(fs, 1, "itemOffered");
    var item := fs[1].value.fields;
    GetAt(item, 1, "name");
    GetAt(item, 2, "description");
  }

  /** The four guarded assignments after the header, in source order:
      social profiles, service areas, opening hours, offer catalog. */
  function Extras(sameAs: seq<string>, areas: seq<string>, hours: seq<Json>, offers: seq<Offer>): seq<Step> {
    [Step(sameAs != [], "sameAs", JArray(Strings(sameAs)))]
      + ([Step(areas != [], "areaServed", JArray(Strings(areas)))]
      + ([Step(hours != [], "openingHoursSpecification", JArray(hours))]
      + [Step(offers != [], "hasOfferCatalog", CatalogJson(offers))]))
  }

  const OptionalKeys: seq<string> := ["sameAs", "areaServed", "openingHoursSpecification", "hasOfferCatalog"]

  /** The header followed by the four guarded assignments. */
  function Document(p: Profile, sameAs: seq<string>, areas: seq<string>, hours: seq<Json>, offers: seq<Offer>): Json {
    JObject(Apply(Header(p), Extras(sameAs, areas, hours, offers)))
  }

  /** The whole document, given the rendered opening hours and the offers:
      the header, then the social profiles and service areas as their
      stripped non-blank lines, then the hours and the catalog. */
  function Assemble(p: Profile, hours: seq<Json>, offers: seq<Offer>): Json {
    Document(p, ParseLines(p.socials), ParseLines(p.areas), hours, offers)
  }

  /** `build_jsonld` up to the serialization: the hours loop may raise, every
      other step always succeeds. */
  function Build(p: Profile, offers: seq<Offer>): Result<Json, Exception> {
    var hours :- OpeningHours(p.hours);
    Success(Assemble(p, hours, offers))
  }

  /** The optional keys that are present, in the order they are added. */
  function PresentKeys(sameAs: seq<string>, areas: seq<string>, hours: seq<Json>, offers: seq<Offer>): seq<string> {
    (if sameAs != [] then ["sameAs"] else [])
      + (if areas != [] then ["areaServed"] else [])
      + (if hours != [] then ["openingHoursSpecification"] else [])
      + (if offers != [] then ["hasOfferCatalog"] else [])
  }

  /** The optional keys are distinct and none is a header key. */
  lemma OptionalKeysFresh()
    ensures Distinct(OptionalKeys) && Disjoint(OptionalKeys, HeaderKeys)
  {
  }

  /** The extras name the optional keys and add exactly those whose list is
      non-empty. */
  lemma ExtrasKeys(sameAs: seq<string>, areas: seq<string>, hours: seq<Json>, offers: seq<Offer>)
    ensures StepKeys(Extras(sameAs, areas, hours, offers)) == OptionalKeys
    ensures Added(Extras(sameAs, areas, hours, offers)) == PresentKeys(sameAs, areas, hours, offers)
  {
    var a := Step(sameAs != [], "sameAs", JArray(Strings(sameAs)));
    var b := Step(areas != [], "areaServed", JArray(Strings(areas)));
    var c := Step(hours != [], "openingHoursSpecification", JArray(hours));
    var d := Step(offers != [], "hasOfferCatalog", CatalogJson(offers));
    StepsCons(d, []);
    assert [d] + [] == [d];
    StepsCons(c, [d]);
    StepsCons(b, [c] + [d]);
    StepsCons(a, [b] + ([c] + [d]));
    var oa := if sameAs != [] then ["sameAs"] else [];
    var ob := if areas != [] then ["areaServed"] else [];
    var oc := if hours != [] then ["openingHoursSpecification"] else [];
    var od := if offers != [] then ["hasOfferCatalog"] else [];
    AppendAssoc(oa, ob, oc + od);
    AppendAssoc(oa + ob, oc, od);
  }

  /** Each extra stores its list under its key when the list is non-empty. */
  lemma ExtrasLookup(sameAs: seq<string>, areas: seq<string>, hours: seq<Json>, offers: seq<Offer>)
    ensures var e := Extras(sameAs, areas, hours, offers);
      && Lookup(e, "sameAs") == (if sameAs != [] then Some(JArray(Strings(sameAs))) else None)
      && Lookup(e, "areaServed") == (if areas != [] then Some(JArray(Strings(areas))) else None)
      && Lookup(e, "openingHoursSpecification") == (if hours != [] then Some(JArray(hours)) else None)
      && Lookup(e, "hasOfferCatalog") == (if offers != [] then Some(CatalogJson(offers)) else None)
  {
    var a := Step(sameAs != [], "sameAs", JArray(Strings(sameAs)));
    var b := Step(areas != [], "areaServed", JArray(Strings(areas)));
    var c := Step(hours != [], "openingHoursSpecification", JArray(hours));
    var d := Step(offers != [], "hasOfferCatalog", CatalogJson(offers));
    StepsCons(d, []);
    StepsCons(c, [d]);
    StepsCons(b, [c] + [d]);
    StepsCons(a, [b] + ([c] + [d]));
    OptionalKeysFresh();
  }

  /** The header's keys are the literal's, in order. */
  lemma HeaderKeysOf(p: Profile)
    ensures Keys(Header(p)) == HeaderKeys
  {
  }

  /** Header fields never collide with each other. */
  lemma HeaderDistinct(p: Profile)
    ensures DistinctKeys(Header(p))
  {
  }

  /** Every header value is typed, the address included. */
  lemma HeaderTyped(p: Profile)
    ensures forall i | 0 <= i < |Header(p)| :: Typed(Header(p)[i].value)
  {
    assert Typed(AddressJson(p));
  }

  /** Every header member carries the form field it is named after; the
      address is always present. */
  lemma HeaderMembers(p: Profile)
    ensures Get(Header(p), "@context") == Some(JString(Context))
    ensures Get(Header(p), "@type") == Some(JString("LocalBusiness"))
    ensures Get(Header(p), "name") == Some(JString(p.name))
    ensures Get(Header(p), "url") == Some(JString(p.url))
    ensures Get(Header(p), "logo") == Some(JString(p.logo))
    ensures Get(Header(p), "description") == Some(JString(p.description))
    ensures Get(Header(p), "telephone") == Some(JString(p.telephone))
    ensures Get(Header(p), "address") == Some(AddressJson(p))
  {
    var fs := Header(p);
    HeaderDistinct(p);
    GetIndex(fs, 0);
    GetIndex(fs, 1);
    GetIndex(fs, 2);
    GetIndex(fs, 3);
    GetIndex(fs, 4);
    GetIndex(fs, 5);
    GetIndex(fs, 6);
    GetIndex(fs, 7);
  }

  /** The keys of a document built from any lists: the header keys, then
      the optional keys whose list is non-empty; no key repeats. */
  lemma DocumentKeys(p: Profile, sameAs: seq<string>, areas: seq<string>, hours: seq<Json>, offers: seq<Offer>)
    ensures Keys(Document(p, sameAs, areas, hours, offers).fields) == HeaderKeys + PresentKeys(sameAs, areas, hours, offers)
    ensures DistinctKeys(Document(p, sameAs, areas, hours, offers).fields)
  {
    var e := Extras(sameAs, areas, hours, offers);
    HeaderKeysOf(p);
    HeaderDistinct(p);
    OptionalKeysFresh();
    ExtrasKeys(sameAs, areas, hours, offers);
    ApplyKeys(Header(p), e);
    ApplyDistinct(Header(p), e);
  }

  /** What every member of a document built from any lists holds. */
  lemma DocumentMembers(p: Profile, sameAs: seq<string>, areas: seq<string>, hours: seq<Json>, offers: seq<Offer>)
    ensures var doc := Document(p, sameAs, areas, hours, offers);
      && Member(doc, "sameAs") == (if sameAs != [] then Some(JArray(Strings(sameAs))) else None)
      && Member(doc, "areaServed") == (if areas != [] then Some(JArray(Strings(areas))) else None)
      && Member(doc, "openingHoursSpecification") == (if hours != [] then Some(JArray(hours)) else None)
      && Member(doc, "hasOfferCatalog") == (if offers != [] then Some(CatalogJson(offers)) else None)
      && forall k | k in HeaderKeys :: Member(doc, k) == Get(Header(p), k)
  {
    var e := Extras(sameAs, areas, hours, offers);
    HeaderKeysOf(p);
    OptionalKeysFresh();
    ExtrasKeys(sameAs, areas, hours, offers);
    ExtrasLookup(sameAs, areas, hours, offers);
    ApplyGetAll(Header(p), e);
    assert OptionalKeys[0] == "sameAs" && OptionalKeys[1] == "areaServed";
    assert OptionalKeys[2] == "openingHoursSpecification" && OptionalKeys[3] == "hasOfferCatalog";
  }

  /** The document's keys: the header keys in their literal order, then each
      optional key whose list is non-empty, in the order the code assigns
      them; no key appears twice. */
  lemma AssembleKeys(p: Profile, hours: seq<Json>, offers: seq<Offer>)
    ensures Keys(Assemble(p, hours, offers).fields) ==
      HeaderKeys + PresentKeys(ParseLines(p.socials), ParseLines(p.areas), hours, offers)
    ensures DistinctKeys(Assemble(p, hours, offers).fields)
  {
    DocumentKeys(p, ParseLines(p.socials), ParseLines(p.areas), hours, offers);
  }

  /** The optional members hold the stripped non-blank lines of the social
      profile and service area text, the opening hours and the catalog, each
      present exactly when its list is non-empty. */
  lemma AssembleOptional(p: Profile, hours: seq<Json>, offers: seq<Offer>)
    ensures var doc := Assemble(p, hours, offers);
      var sameAs := ParseLines(p.socials);
      var areas := ParseLines(p.areas);
      && Member(doc, "sameAs") == (if sameAs != [] then Some(JArray(Strings(sameAs))) else None)
      && Member(doc, "areaServed") == (if areas != [] then Some(JArray(Strings(areas))) else None)
      && Member(doc, "openingHoursSpecification") == (if hours != [] then Some(JArray(hours)) else None)
      && Member(doc, "hasOfferCatalog") == (if offers != [] then Some(CatalogJson(offers)) else None)
  {
    DocumentMembers(p, ParseLines(p.socials), ParseLines(p.areas), hours, offers);
  }

  /** Every header member keeps the value the header gives it. */
  lemma AssembleHeader(p: Profile, hours: seq<Json>, offers: seq<Offer>)
    ensures forall k | k in HeaderKeys :: Member(Assemble(p, hours, offers), k) == Get(Header(p), k)
  {
    DocumentMembers(p, ParseLines(p.socials), ParseLines(p.areas), hours, offers);
  }

  /** Every value the extras assign is typed, given that the opening-hours
      entries are. */
  lemma ExtrasTyped(sameAs: seq<string>, areas: seq<string>, hours: seq<Json>, offers: seq<Offer>)
    requires forall i | 0 <= i < |hours| :: Typed(hours[i])
    ensures forall i | 0 <= i < |Extras(sameAs, areas, hours, offers)| :: Typed(Extras(sameAs, areas, hours, offers)[i].value)
  {
    CatalogTyped(offers);
  }

  /** Every object of a document built from any lists has an `@type`, given
      that the opening-hours entries do. */
  lemma DocumentTyped(p: Profile, sameAs: seq<string>, areas: seq<string>, hours: seq<Json>, offers: seq<Offer>)
    requires forall i | 0 <= i < |hours| :: Typed(hours[i])
    ensures Typed(Document(p, sameAs, areas, hours, offers))
  {
    var e := Extras(sameAs, areas, hours, offers);
    HeaderTyped(p);
    ExtrasTyped(sameAs, areas, hours, offers);
    ApplyTyped(Header(p), e);
    DocumentKeys(p, sameAs, areas, hours, offers);
    assert Keys(Document(p, sameAs, areas, hours, offers).fields)[1] == "@type";
  }

  /** Every object of the document, nested ones included, has an `@type`,
      given that the opening-hours entries do. */
  lemma AssembleTyped(p: Profile, hours: seq<Json>, offers: seq<Offer>)
    requires forall i | 0 <= i < |hours| :: Typed(hours[i])
    ensures Typed(Assemble(p, hours, offers))
  {
    DocumentTyped(p, ParseLines(p.socials), ParseLines(p.areas), hours, offers);
  }

  /** Every catalog is typed, its entries included. */
  lemma CatalogTyped(offers: seq<Offer>)
    ensures Typed(CatalogJson(offers))
  {
    var items := OffersJson(offers);
    forall i | 0 <= i < |items| ensures Typed(items[i]) {
      var item := OfferJson(offers[i]);
      assert Typed(item.fields[1].value);
    }
  }

  /** Every opening-hours entry is typed. */
  lemma {:induction false} EntriesTyped(h: Hours, days: seq<Weekday>)
    requires forall d | d in days :: HasTimes(h, d)
    ensures forall i | 0 <= i < |EntriesFor(h, days)| :: Typed(EntriesFor(h, days)[i])
  {
    if days != [] {
      var d := days[0];
      assert d in days;
      EntriesTyped(h, days[1..]);
      var rest := EntriesFor(h, days[1..]);
      assert EntriesFor(h, days) == [HoursEntry(d, h.opens[d], h.closes[d])] + rest;
    }
  }

  /** The builder up to serialization: it raises exactly when an enabled day
      lacks a time, naming the first such day of the week; otherwise the
      document is typed throughout, its opening hours are those of the
      enabled days (absent when none is enabled) and its catalog is present
      exactly when there are offers. */
  lemma BuildSpec(p: Profile, offers: seq<Offer>)
    ensures Build(p, offers).Success? <==> TimesComplete(p.hours)
    ensures Build(p, offers).Failure? ==>
      exists i :: FirstMissing(p.hours, Week, i) && Build(p, offers).error == MissingKey(p.hours, Week[i])
    ensures Build(p, offers).Success? ==>
      && Typed(Build(p, offers).value)
      && (forall d | d in EnabledDays(p.hours) :: HasTimes(p.hours, d))
      && Member(Build(p, offers).value, "openingHoursSpecification") ==
           (if EnabledDays(p.hours) == [] then None else Some(JArray(EntriesFor(p.hours, EnabledDays(p.hours)))))
      && Member(Build(p, offers).value, "hasOfferCatalog") ==
           (if offers == [] then None else Some(CatalogJson(offers)))
  {
    var h := p.hours;
    OpeningHoursSpec(h);
    HoursOfError(h, Week);
    if OpeningHours(h).Success? {
      var hours := OpeningHours(h).value;
      EntriesTyped(h, EnabledDays(h));
      AssembleTyped(p, hours, offers);
      AssembleOptional(p, hours, offers);
    }
  }

  /** The header members of an assembled document. */
  lemma AssembleHeaderMembers(p: Profile, hours: seq<Json>, offers: seq<Offer>)
    ensures var doc := Assemble(p, hours, offers);
      && Member(doc, "@context") == Some(JString("https://schema.org"))
      && Member(doc, "@type") == Some(JString("LocalBusiness"))
      && Member(doc, "name") == Some(JString(p.name))
      && Member(doc, "url") == Some(JString(p.url))
      && Member(doc, "logo") == Some(JString(p.logo))
      && Member(doc, "description") == Some(JString(p.description))
      && Member(doc, "telephone") == Some(JString(p.telephone))
      && Member(doc, "address") == Some(AddressJson(p))
  {
    AssembleHeader(p, hours, offers);
    HeaderMembers(p);
  }

  /** A built document always carries the fixed context and type, the five
      scalar fields as entered (empty strings included) and the address,
      itself typed `PostalAddress` and holding the five address fields. */
  lemma BuildHeader(p: Profile, offers: seq<Offer>)
    ensures Build(p, offers).Success? ==>
      var doc := Build(p, offers).value;
      && Member(doc, "@context") == Some(JString("https://schema.org"))
      && Member(doc, "@type") == Some(JString("LocalBusiness"))
      && Member(doc, "name") == Some(JString(p.name))
      && Member(doc, "url") == Some(JString(p.url))
      && Member(doc, "logo") == Some(JString(p.logo))
      && Member(doc, "description") == Some(JString(p.description))
      && Member(doc, "telephone") == Some(JString(p.telephone))
      && Member(doc, "address") == Some(AddressJson(p))
      && Member(AddressJson(p), "@type") == Some(JString("PostalAddress"))
      && Member(AddressJson(p), "streetAddress") == Some(JString(p.street))
      && Member(AddressJson(p), "addressLocality") == Some(JString(p.city))
      && Member(AddressJson(p), "addressRegion") == Some(JString(p.region))
      && Member(AddressJson(p), "postalCode") == Some(JString(p.postal))
      && Member(AddressJson(p), "addressCountry") == Some(JString(p.country))
  {
    if Build(p, offers).Success? {
      AssembleHeaderMembers(p, OpeningHours(p.hours).value, offers);
      AddressMembers(p);
    }
  }

  /** The address object's members, in order. */
  lemma AddressMembers(p: Profile)
    ensures Member(AddressJson(p), "@type") == Some(JString("PostalAddress"))
    ensures Member(AddressJson(p), "streetAddress") == Some(JString(p.street))
    ensures Member(AddressJson(p), "addressLocality") == Some(JString(p.city))
    ensures Member(AddressJson(p), "addressRegion") == Some(JString(p.region))
    ensures Member(AddressJson(p), "postalCode") == Some(JString(p.postal))
    ensures Member(AddressJson(p), "addressCountry") == Some(JString(p.country))
  {
    var fs := AddressJson(p).fields;
    assert DistinctKeys(fs);
    GetIndex(fs, 0);
    GetIndex(fs, 1);
    GetIndex(fs, 2);
    GetIndex(fs, 3);
    GetIndex(fs, 4);
    GetIndex(fs, 5);
  }

  /** In a built document, `sameAs` and `areaServed` are present exactly
      when their text has a non-blank line, and then hold its entries. */
  lemma BuildLists(p: Profile, offers: seq<Offer>)
    ensures Build(p, offers).Success? ==>
      var doc := Build(p, offers).value;
      && Member(doc, "sameAs") ==
           (if ParseLines(p.socials) == [] then None else Some(JArray(Strings(ParseLines(p.socials)))))
      && Member(doc, "areaServed") ==
           (if ParseLines(p.areas) == [] then None else Some(JArray(Strings(ParseLines(p.areas)))))
  {
    if Build(p, offers).Success? {
      AssembleOptional(p, OpeningHours(p.hours).value, offers);
    }
  }
}
