/**
 * The `/api/tag` route. GET reads `q`, `pageIndex` and `pageSize` from the query string
 * with no defaults and answers the tag page with status 201. POST checks the body against
 * the server schema (a slug of at least two characters and a colour string) and otherwise
 * creates the tag; the slug grammar of the tag form is not checked here.
 */
module TagRoute {
  import opened Wrappers
  import opened Records
  import opened SearchParams
  import opened TagQueries
  import opened TagForm
  import opened Http
  import opened Database

  /** The fields the body schema keeps. */
  datatype TagInput = TagInput(slug: string, color: string)

  /** `schema.safeParse(body)`: a `slug` string of at least two characters and a `color` string. */
  function ParseTagBody(body: Json): (r: Option<TagInput>)
    ensures r.Some? ==> |r.value.slug| >= 2
    ensures r.Some? ==>
      && body.JObject? && "slug" in body.fields && "color" in body.fields
      && body.fields["slug"] == JString(r.value.slug) && body.fields["color"] == JString(r.value.color)
  {
    if !body.JObject? then None
    else
      var f := body.fields;
      if "slug" in f && f["slug"].JString? && |f["slug"].s| >= 2 && "color" in f && f["color"].JString?
      then Some(TagInput(f["slug"].s, f["color"].s))
      else None
  }

  /** The JSON body a client sends for the given fields. */
  function EncodeTag(input: TagInput): Json {
    JObject(map["slug" := JString(input.slug), "color" := JString(input.color)])
  }

  /** The server accepts a body exactly when the slug has two characters or more, and reads back the same fields. */
  lemma TagBodyRoundTrip(input: TagInput)
    ensures ParseTagBody(EncodeTag(input)).Some? <==> |input.slug| >= 2
    ensures ParseTagBody(EncodeTag(input)).Some? ==> ParseTagBody(EncodeTag(input)).value == input
  {
  }

  /** The form's values as the body the dialog sends. */
  function FormBody(v: TagFormValues): Json {
    EncodeTag(TagInput(v.slug, v.color))
  }

  /** The server takes slugs the form's grammar refuses, such as digits or an empty colour. */
  lemma ServerIgnoresSlugGrammar()
    ensures ParseTagBody(EncodeTag(TagInput("42", ""))) == Some(TagInput("42", ""))
    ensures !ValidTagForm(TagFormValues("42", ""))
  {
    ForeignCharacterRejected("42", 0);
  }

  /** A one-letter slug passes the form but the server answers 400 for it. */
  lemma OneLetterSlugOnlyPassesForm()
    ensures ValidTagForm(TagFormValues("a", "#E2E2E2"))
    ensures ParseTagBody(FormBody(TagFormValues("a", "#E2E2E2"))).None?
  {
    JoinedWordsAreSlug(["a"]);
  }

  /** A valid form whose slug has at least two letters is accepted by the server as is. */
  lemma FormAcceptedWhenLongEnough(v: TagFormValues)
    requires ValidTagForm(v) && |v.slug| >= 2
    ensures ParseTagBody(FormBody(v)) == Some(TagInput(v.slug, v.color))
  {
  }

  /** The listing parameters after coercion: `String(get("q"))`, `Number(get(...))` without defaults. */
  datatype TagListParams = TagListParams(q: string, pageIndex: JsNumber, pageSize: JsNumber)

  function TagListParamsOf(ps: seq<Param>): TagListParams {
    TagListParams(QueryString(Get(ps, "q")), ParseNumber(Get(ps, "pageIndex")), ParseNumber(Get(ps, "pageSize")))
  }

  /** Both numbers are present and non-negative: what the store accepts as `skip`/`take`. */
  predicate Usable(p: TagListParams) {
    p.pageIndex.Num? && p.pageSize.Num? && p.pageIndex.value >= 0 && p.pageSize.value >= 0
  }

  /**
   * `GET /api/tag`: the tag page for the coerced parameters, with status 201. NaN or a
   * negative number is refused by the store.
   */
  function GetTagsRoute(tags: seq<Tag>, ps: seq<Param>): (r: Response)
    ensures r.Reply? <==> Usable(TagListParamsOf(ps))
    ensures r.Unhandled? ==> r.error == InvalidPaging
    ensures r.Reply? ==>
      && r.status == Created && r.body.TagList?
      && r.body.tagPage == ListTags(tags, TagListParamsOf(ps).q,
                                    TagListParamsOf(ps).pageIndex.value, TagListParamsOf(ps).pageSize.value)
  {
    var p := TagListParamsOf(ps);
    if !Usable(p) then Unhandled(InvalidPaging)
    else Reply(Created, TagList(ListTags(tags, p.q, p.pageIndex.value, p.pageSize.value)))
  }

  /** With no parameters the page size is 0: no tags, and a page count of null. */
  lemma BareRequestListsNothing(tags: seq<Tag>)
    ensures GetTagsRoute(tags, []) == Reply(Created, TagList(TagPage([], None)))
  {
    var page := ListTags(tags, "null", 0, 0);
    assert page.tags == [];
  }

  /** The picker's request (`pageSize: 20, pageIndex: 0`, any search text) gets the first 20 matching tags. */
  lemma PickerRequest(tags: seq<Tag>, search: string)
    ensures var ps := [Param("q", search), Param("pageSize", DecimalString(20)), Param("pageIndex", DecimalString(0))];
      GetTagsRoute(tags, ps) == Reply(Created, TagList(ListTags(tags, search, 0, 20)))
  {
    var ps := [Param("q", search), Param("pageSize", DecimalString(20)), Param("pageIndex", DecimalString(0))];
    NumberRoundTrip(20);
    NumberRoundTrip(0);
    assert Get(ps, "q") == Some(search);
    assert Get(ps[1..], "pageSize") == Some(DecimalString(20));
    assert Get(ps[2..], "pageIndex") == Some(DecimalString(0));
    assert Get(ps[1..], "pageIndex") == Get(ps[2..], "pageIndex");
  }

  /**
   * `POST /api/tag`: 400 and no change for a body the schema refuses; otherwise the tag is
   * created, or the store's error escapes when the slug is taken.
   */
  method PostTag(store: Store, body: Json, now: int) returns (resp: Response)
    requires store.Valid()
    modifies store
    ensures store.Valid()
    ensures ParseTagBody(body).None? ==>
      resp == Reply(BadRequest, ErrorMessage(MissingProperties)) && unchanged(store)
    ensures ParseTagBody(body).Some? ==>
      var input := ParseTagBody(body).value;
      && (resp == Reply(Created, Message(CreatedSuccessfully)) <==> input.slug !in Slugs(old(store.tags)))
      && (resp == Reply(Created, Message(CreatedSuccessfully)) || resp == Unhandled(UniqueViolation))
      && (resp.Unhandled? ==> unchanged(store))
      && (resp.Reply? ==>
            && store.tags == old(store.tags) + [Tag(old(store.nextId), input.slug, input.color, now)]
            && store.contacts == old(store.contacts) && store.links == old(store.links))
  {
    var parsed := ParseTagBody(body);
    if parsed.None? {
      return Reply(BadRequest, ErrorMessage(MissingProperties));
    }
    var input := parsed.value;
    var created := store.CreateTag(input.slug, input.color, now);
    if created.Failure? {
      return Unhandled(created.error);
    }
    resp := Reply(Created, Message(CreatedSuccessfully));
  }

  /** Posting the same valid tag twice: the first is created, the second lets the unique-slug error escape. */
  method PostTwice(body: Json) returns (first: Response, second: Response)
    requires ParseTagBody(body).Some?
    ensures first == Reply(Created, Message(CreatedSuccessfully))
    ensures second == Unhandled(UniqueViolation) && StatusCode(second) == 500
  {
    var store := new Store();
    first := PostTag(store, body, 0);
    var slug := ParseTagBody(body).value.slug;
    assert |store.tags| == 1 && store.tags[0].slug == slug;
    assert slug in Slugs(store.tags);
    second := PostTag(store, body, 1);
  }
}
