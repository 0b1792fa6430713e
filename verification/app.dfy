/** The structured revision (`schema_generator_app.py`): services are a list
    of `{"name": ..., "desc": ...}` records that the page grows with
    `add_service` and shrinks with `delete_service`; an entry becomes an
    offer only when its stripped name is non-empty. */
module App {
  import opened Results
  import opened Text
  import opened Json
  import opened Session
  import opened Lists
  import opened Schema
  import opened Markup

  /** One service record. `None` stands for a key missing from the dict,
      which `svc.get(key, "")` reads as the empty string. */
  datatype ServiceEntry = ServiceEntry(name: Option<string>, desc: Option<string>)

  /** The record `add_service` appends. */
  const BlankService: ServiceEntry := ServiceEntry(Some(""), Some(""))

  /** The session state the builder reads. */
  datatype Form = Form(profile: Profile, services: seq<ServiceEntry>)

  /** `add_service`: one more entry, blank, at the end. */
  function AddService(services: seq<ServiceEntry>): (r: seq<ServiceEntry>)
    ensures |r| == |services| + 1
    ensures r[..|services|] == services && r[|services|] == BlankService
  {
    services + [BlankService]
  }

  /** The position `list.pop(idx)` removes: a negative index counts from the
      end. */
  function PopIndex(n: int, idx: int): int {
    if idx < 0 then idx + n else idx
  }

  /** `list.pop` first converts its argument to a C `Py_ssize_t`, a signed
      64-bit integer. */
  predicate FitsSsize(idx: int) {
    -0x8000_0000_0000_0000 <= idx < 0x8000_0000_0000_0000
  }

  /** `delete_service(idx)`, that is `services.pop(idx)`: the entry at the
      index goes and the later ones move down by one. An index that does
      not fit a `Py_ssize_t` raises `OverflowError` before the list is looked
      at; otherwise an index outside `-len .. len-1` raises `IndexError`. */
  function DeleteService(services: seq<ServiceEntry>, idx: int): (r: Result<seq<ServiceEntry>, Exception>)
    ensures r.Success? <==> FitsSsize(idx) && -|services| <= idx < |services|
    ensures r.Failure? ==>
      r.error == if !FitsSsize(idx) then OverflowError("Python int too large to convert to C ssize_t")
                 else IndexError(if services == [] then "pop from empty list" else "pop index out of range")
    ensures r.Success? ==>
      var i := PopIndex(|services|, idx);
      && 0 <= i < |services|
      && |r.value| == |services| - 1
      && (forall j | 0 <= j < i :: r.value[j] == services[j])
      && (forall j | i <= j < |r.value| :: r.value[j] == services[j + 1])
  {
    if !FitsSsize(idx) then Failure(OverflowError("Python int too large to convert to C ssize_t"))
    else if services == [] then Failure(IndexError("pop from empty list"))
    else if !(-|services| <= idx < |services|) then Failure(IndexError("pop index out of range"))
    else
      var i := PopIndex(|services|, idx);
      Success(services[..i] + services[i + 1..])
  }

  /** Deleting the entry just added, by its index or as the last one,
      restores the list. A Python list holds fewer than `2**63` entries, so
      its length is a valid index once an entry is added. */
  lemma DeleteAdded(services: seq<ServiceEntry>)
    requires FitsSsize(|services|)
    ensures DeleteService(AddService(services), |services|) == Success(services)
    ensures DeleteService(AddService(services), -1) == Success(services)
  {
    var r := AddService(services);
    assert r[..|services|] + r[|services| + 1..] == services;
  }

  /** Putting the removed entry back where it was restores the list. */
  lemma DeleteReinsert(services: seq<ServiceEntry>, idx: int)
    requires DeleteService(services, idx).Success?
    ensures var i := PopIndex(|services|, idx);
      var r := DeleteService(services, idx).value;
      r[..i] + [services[i]] + r[i..] == services
  {
    var i := PopIndex(|services|, idx);
    var r := DeleteService(services, idx).value;
    assert r[..i] == services[..i];
    assert r[i..] == services[i + 1..];
    assert services == services[..i] + [services[i]] + services[i + 1..];
  }

  /** `svc.get("name", "").strip()`. */
  function EntryName(e: ServiceEntry): string {
    Strip(e.name.GetOr(""))
  }

  /** `svc.get("desc", "").strip()`. */
  function EntryDescription(e: ServiceEntry): string {
    Strip(e.desc.GetOr(""))
  }

  /** The offer an entry yields: only an entry with a name left after
      stripping yields one. */
  function EntryOffer(e: ServiceEntry): Option<Offer> {
    if EntryName(e) != [] then Some(Offer(EntryName(e), EntryDescription(e))) else None
  }

  /** The services loop of `build_jsonld`. */
  function ServiceOffers(services: seq<ServiceEntry>): seq<Offer> {
    FilterMap(services, EntryOffer)
  }

  /** Offers correspond one to one, in order, to the entries whose stripped
      name is non-empty: offer `k` comes from entry `Picked(..)[k]` and
      carries its stripped name and stripped description (possibly empty);
      every other entry has a blank or missing name. Every offer's name is
      non-empty, and both fields are stripped. */
  lemma ServiceOffersSpec(services: seq<ServiceEntry>)
    ensures Selects(services, EntryOffer, ServiceOffers(services), Picked(services, EntryOffer))
    ensures forall k | 0 <= k < |ServiceOffers(services)| ::
      var o := ServiceOffers(services)[k];
      o.name != [] && IsStripped(o.name) && IsStripped(o.description)
    ensures forall j | 0 <= j < |services| :: EntryOffer(services[j]).None? <==> AllSpace(services[j].name.GetOr(""))
  {
    var offers := ServiceOffers(services);
    var picked := Picked(services, EntryOffer);
    FilterMapSelects(services, EntryOffer);
    forall k | 0 <= k < |offers| ensures offers[k].name != [] && IsStripped(offers[k].name) && IsStripped(offers[k].description) {
      assert EntryOffer(services[picked[k]]) == Some(offers[k]);
    }
    forall j | 0 <= j < |services| ensures EntryOffer(services[j]).None? <==> AllSpace(services[j].name.GetOr("")) {
      StripEmpty(services[j].name.GetOr(""));
    }
  }

  /** A blank entry yields no offer, so adding one leaves the offers as they
      were. */
  lemma AddServiceOffers(services: seq<ServiceEntry>)
    ensures ServiceOffers(AddService(services)) == ServiceOffers(services)
  {
    FilterMapAppend(services, [BlankService], EntryOffer);
    assert Strip("") == [];
  }

  /** Deleting an entry removes exactly its offer, if it had one: the offers
      of the entries before and after it are kept, in order. */
  lemma DeleteServiceOffers(services: seq<ServiceEntry>, idx: int)
    requires DeleteService(services, idx).Success?
    ensures var i := PopIndex(|services|, idx);
      && ServiceOffers(DeleteService(services, idx).value) == ServiceOffers(services[..i]) + ServiceOffers(services[i + 1..])
      && |ServiceOffers(services)| == |ServiceOffers(DeleteService(services, idx).value)| + (if EntryOffer(services[i]).Some? then 1 else 0)
  {
    var i := PopIndex(|services|, idx);
    var a, b := services[..i], services[i + 1..];
    assert services == a + ([services[i]] + b);
    assert DeleteService(services, idx).value == a + b;
    FilterMapAppend(a, b, EntryOffer);
    FilterMapAppend(a, [services[i]] + b, EntryOffer);
    FilterMapAppend([services[i]], b, EntryOffer);
  }

  /** The catalog is present exactly when some entry has a non-blank name. */
  lemma CatalogPresence(form: Form)
    ensures BuildDocument(form).Success? ==>
      (Member(BuildDocument(form).value, "hasOfferCatalog").Some? <==>
        exists j | 0 <= j < |form.services| :: EntryName(form.services[j]) != [])
  {
    FilterMapEmpty(form.services, EntryOffer);
    BuildSpec(form.profile, ServiceOffers(form.services));
  }

  /** `build_jsonld` up to `json.dumps`. */
  function BuildDocument(form: Form): Result<Json, Exception> {
    Build(form.profile, ServiceOffers(form.services))
  }

  /** `build_jsonld`: the document serialized by `dumps` (standing for
      `json.dumps(schema, indent=2)`) inside the script tag. */
  function BuildJsonLd(form: Form, dumps: Json -> string): Result<string, Exception> {
    var doc :- BuildDocument(form);
    Success(Wrap(dumps(doc)))
  }

  /** The generated block fails exactly when the document does; otherwise
      stripping the tags gives back the serialized document, and the catalog
      holds one offer per named entry and is absent when there is none. */
  lemma BuildJsonLdSpec(form: Form, dumps: Json -> string)
    ensures BuildJsonLd(form, dumps).Success? <==> BuildDocument(form).Success?
    ensures BuildJsonLd(form, dumps).Failure? ==> BuildJsonLd(form, dumps).error == BuildDocument(form).error
    ensures BuildJsonLd(form, dumps).Success? ==>
      && Unwrap(BuildJsonLd(form, dumps).value) == Some(dumps(BuildDocument(form).value))
      && Member(BuildDocument(form).value, "hasOfferCatalog") ==
           (if ServiceOffers(form.services) == [] then None else Some(CatalogJson(ServiceOffers(form.services))))
  {
    if BuildDocument(form).Success? {
      UnwrapWrap(dumps(BuildDocument(form).value));
      BuildSpec(form.profile, ServiceOffers(form.services));
    }
  }
}
