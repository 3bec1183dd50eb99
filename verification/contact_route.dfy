/**
 * The `/api/contact` route. GET reads `q`, `pageIndex` and `pageSize` from the query string
 * (with `|| 0` and `|| 20` defaults) and answers the listing with status 201. POST checks
 * the body against the server schema (name and number of at least two characters, at
 * least one tag slug), answers 400 when it does not fit, and otherwise creates the contact.
 */
module ContactRoute {
  import opened Wrappers
  import opened Text
  import opened Records
  import opened SearchParams
  import opened ContactQueries
  import opened ContactForm
  import opened Http
  import opened Database

  /** The fields the body schema keeps. */
  datatype ContactInput = ContactInput(name: string, contact: string, tags: seq<string>)

  /**
   * `schema.safeParse(body)`: `name` and `contact` strings of at least two characters and
   * `tags` a non-empty array of strings; other keys are ignored.
   */
  function ParseContactBody(body: Json): (r: Option<ContactInput>)
    ensures r.Some? ==> |r.value.name| >= 2 && |r.value.contact| >= 2 && |r.value.tags| >= 1
    ensures r.Some? ==>
      && body.JObject? && "name" in body.fields && "contact" in body.fields
      && body.fields["name"] == JString(r.value.name) && body.fields["contact"] == JString(r.value.contact)
    ensures r.Some? ==> "tags" in body.fields && body.fields["tags"] == JArray(StringArray(r.value.tags))
    ensures body.JObject? && "tags" in body.fields && body.fields["tags"].JArray?
         && (exists i :: 0 <= i < |body.fields["tags"].items| && !body.fields["tags"].items[i].JString?)
         ==> r.None?
  {
    if !body.JObject? then None
    else
      var f := body.fields;
      if "name" in f && f["name"].JString? && |f["name"].s| >= 2
        && "contact" in f && f["contact"].JString? && |f["contact"].s| >= 2
        && "tags" in f && f["tags"].JArray? && StringItems(f["tags"].items).Some?
        && |StringItems(f["tags"].items).value| >= 1
      then
        var tags := StringItems(f["tags"].items).value;
        assert f["tags"].items == StringArray(tags);
        Some(ContactInput(f["name"].s, f["contact"].s, tags))
      else None
  }

  /** The JSON body a client sends for the given fields. */
  function EncodeContact(input: ContactInput): Json {
    JObject(map["name" := JString(input.name), "contact" := JString(input.contact),
                "tags" := JArray(StringArray(input.tags))])
  }

  /** The server accepts a body exactly when its fields meet the minimum lengths, and reads back the same fields. */
  lemma ContactBodyRoundTrip(input: ContactInput)
    ensures ParseContactBody(EncodeContact(input)).Some? <==>
      |input.name| >= 2 && |input.contact| >= 2 && |input.tags| >= 1
    ensures ParseContactBody(EncodeContact(input)).Some? ==> ParseContactBody(EncodeContact(input)).value == input
  {
    StringArrayRoundTrip(input.tags);
  }

  /** Keys the schema does not name do not change the outcome. */
  lemma ExtraKeyIgnored(fields: map<string, Json>, key: string, v: Json)
    requires key != "name" && key != "contact" && key != "tags"
    ensures ParseContactBody(JObject(fields[key := v])) == ParseContactBody(JObject(fields))
  {
    var g := fields[key := v];
    assert forall k :: k == "name" || k == "contact" || k == "tags" ==> (k in g <==> k in fields);
  }

  /** The form's values as the body the dialog sends. */
  function FormBody(v: ContactFormValues): Json {
    EncodeContact(ContactInput(v.name, v.contact, v.tags))
  }

  /** A one-character name passes the form but the server answers 400 for it. */
  lemma OneCharacterNameOnlyPassesForm()
    ensures ValidContactForm(ContactFormValues("A", "99", ["familia"]))
    ensures ParseContactBody(FormBody(ContactFormValues("A", "99", ["familia"]))).None?
  {
    ContactBodyRoundTrip(ContactInput("A", "99", ["familia"]));
  }

  /** A valid form whose name and number have at least two characters is accepted by the server as is. */
  lemma FormAcceptedWhenLongEnough(v: ContactFormValues)
    requires ValidContactForm(v) && |v.name| >= 2 && |v.contact| >= 2
    ensures ParseContactBody(FormBody(v)) == Some(ContactInput(v.name, v.contact, v.tags))
  {
    ContactBodyRoundTrip(ContactInput(v.name, v.contact, v.tags));
  }

  /** The listing parameters after coercion. */
  datatype ListParams = ListParams(q: string, pageIndex: int, pageSize: int)

  /** `String(get("q"))`, `Number(get("pageIndex")) || 0` and `Number(get("pageSize")) || 20`. */
  function ContactListParams(ps: seq<Param>): (r: ListParams)
    ensures r.q == QueryString(Get(ps, "q"))
    ensures r.pageSize != 0
    ensures Get(ps, "pageIndex").None? ==> r.pageIndex == 0
    ensures Get(ps, "pageSize").None? ==> r.pageSize == 20
  {
    ListParams(
      QueryString(Get(ps, "q")),
      OrDefault(ParseNumber(Get(ps, "pageIndex")), 0),
      OrDefault(ParseNumber(Get(ps, "pageSize")), 20))
  }

  /**
   * `GET /api/contact`: the listing for the coerced parameters, with status 201. A negative
   * page index or size is refused by the store.
   */
  function GetContacts(contacts: seq<Contact>, tags: seq<Tag>, links: set<Link>, ps: seq<Param>): (r: Response)
    ensures r.Reply? <==> ContactListParams(ps).pageIndex >= 0 && ContactListParams(ps).pageSize >= 0
    ensures r.Unhandled? ==> r.error == InvalidPaging
    ensures r.Reply? ==>
      && r.status == Created && r.body.ContactList?
      && r.body.contactPage == ListContacts(contacts, tags, links, ContactListParams(ps).q,
                                            ContactListParams(ps).pageIndex, ContactListParams(ps).pageSize)
  {
    var p := ContactListParams(ps);
    if p.pageIndex < 0 || p.pageSize < 0 then Unhandled(InvalidPaging)
    else Reply(Created, ContactList(ListContacts(contacts, tags, links, p.q, p.pageIndex, p.pageSize)))
  }

  /** The listing always has a page count: the page size it uses is never 0. */
  lemma ListingAlwaysHasPageCount(contacts: seq<Contact>, tags: seq<Tag>, links: set<Link>, ps: seq<Param>)
    ensures GetContacts(contacts, tags, links, ps).Reply? ==>
      GetContacts(contacts, tags, links, ps).body.contactPage.pageCount.Some?
  {
  }

  /**
   * A request with no parameters asks for the first 20 contacts matching the text "null":
   * only contacts whose name or number contain "null" are listed.
   */
  lemma BareRequestSearchesForNull(contacts: seq<Contact>, tags: seq<Tag>, links: set<Link>)
    ensures GetContacts(contacts, tags, links, []) ==
      Reply(Created, ContactList(ListContacts(contacts, tags, links, "null", 0, 20)))
    ensures forall k :: 0 <= k < |ListContacts(contacts, tags, links, "null", 0, 20).contacts| ==>
      exists i :: 0 <= i < |contacts|
        && (Contains(contacts[i].name, "null") || Contains(contacts[i].contact, "null"))
        && ListContacts(contacts, tags, links, "null", 0, 20).contacts[k] == ToRow(contacts[i], tags, links)
  {
    assert Get([], "q") == None && Get([], "pageIndex") == None && Get([], "pageSize") == None;
    assert ContactListParams([]) == ListParams("null", 0, 20);
    var rows := ListContacts(contacts, tags, links, "null", 0, 20).contacts;
    forall k | 0 <= k < |rows|
      ensures exists i ::
        0 <= i < |contacts| && (Contains(contacts[i].name, "null") || Contains(contacts[i].contact, "null"))
        && rows[k] == ToRow(contacts[i], tags, links)
    {
      var i :| 0 <= i < |contacts| && MatchesQuery("null", contacts[i]) && rows[k] == ToRow(contacts[i], tags, links);
    }
  }

  /** A zero or non-numeric page index or size falls back to the defaults. */
  lemma FalsyParametersFallBack(ps: seq<Param>)
    requires ParseNumber(Get(ps, "pageIndex")) in {NaN, Num(0)}
    requires ParseNumber(Get(ps, "pageSize")) in {NaN, Num(0)}
    ensures ContactListParams(ps).pageIndex == 0 && ContactListParams(ps).pageSize == 20
  {
  }

  /**
   * `POST /api/contact`: 400 and no change for a body the schema refuses; otherwise the
   * contact is created, or the store's error escapes when a tag slug names no tag.
   */
  method PostContact(store: Store, body: Json, now: int) returns (resp: Response)
    requires store.Valid()
    modifies store
    ensures store.Valid()
    ensures ParseContactBody(body).None? ==>
      resp == Reply(BadRequest, ErrorMessage(MissingProperties)) && unchanged(store)
    ensures ParseContactBody(body).Some? ==>
      var input := ParseContactBody(body).value;
      && (resp == Reply(Created, Message(CreatedSuccessfully)) <==> SlugsExist(old(store.tags), input.tags))
      && (resp == Reply(Created, Message(CreatedSuccessfully)) || resp == Unhandled(RecordNotFound))
      && (resp.Unhandled? ==> unchanged(store))
      && (resp.Reply? ==>
            && store.contacts == old(store.contacts) + [Contact(old(store.nextId), input.name, input.contact, now)]
            && store.tags == old(store.tags)
            && store.links == old(store.links) + LinksTo(old(store.nextId), TagIdsForSlugs(old(store.tags), input.tags))
            && TagIdsOf(store.links, old(store.nextId)) == TagIdsForSlugs(store.tags, input.tags))
  {
    var parsed := ParseContactBody(body);
    if parsed.None? {
      return Reply(BadRequest, ErrorMessage(MissingProperties));
    }
    var input := parsed.value;
    var created := store.CreateContact(input.name, input.contact, input.tags, now);
    if created.Failure? {
      return Unhandled(created.error);
    }
    resp := Reply(Created, Message(CreatedSuccessfully));
  }
}
