# QuickDialer address book, modelled in Dafny

QuickDialer is a small address book: contacts (a name and a phone number) carry tags (a
slug and a colour). The tables live in a relational store. Two HTTP routes list and create
contacts and tags. The browser side has a new-contact dialog, a new-tag dialog, a tag
picker and a search header.

This project models the logic of that core:

- **The store.** A `Database.Store` class holds the contact table, the tag table and the
  contact–tag join as fields. Its methods update them in place:
  - `createContact`, `updateContactById` and `deleteContactById`;
  - `createTag`, `updateTagById` and the transactional `deleteTagById` with its detach loop.
- **The read queries.** These are pure functions over the tables (`ContactQueries`,
  `TagQueries`, `Paging`):
  - substring filtering;
  - newest-first ordering;
  - `skip`/`take` paging;
  - the page count;
  - the "first tag or null" projection;
  - per-tag contact counts.
- **The validators.**
  - The tag form's slug grammar `^[a-zA-Z]+(-[a-zA-Z]+)*$` and colour length (`TagForm`).
  - The contact form's schema (`ContactForm`).
  - The two server body schemas (`ContactRoute`, `TagRoute`).
- **The route handlers.**
  - GET coerces its query parameters with `Number`, `String` and `||` (`Http`).
  - POST maps outcomes to 400 or 201, or lets the store's error escape.
- **`URLSearchParams`.** A class with `set` and `delete` loops (`SearchParams`).
- **The header's filter and clear handlers** (`Header`).
- **The tag picker's add, remove and toggle operations and its badge preview** (`TagInput`).

Modelling choices:

- **Row ids** are natural numbers. The store issues them from one counter shared by both
  tables, so a contact id is never a tag id; this stands for the store's globally unique ids.
- **`createdAt`** is the `now` argument of the create methods.
- **A store exception** is a `Failure(DbError)`. The handlers do not catch it, so a route
  returns `Unhandled(error)`, which the framework answers with a bare 500.
  - Examples: connecting an unknown slug, a duplicate slug, updating or deleting a missing
    row, and a negative or NaN `skip`/`take`.
- **A contact's "first tag"** is the first of its tags in tag-table order.

Where the documented behaviour and the code differ, the model follows the code:

- A POST whose store call throws (a duplicate tag slug, a contact with an unknown slug) is
  not answered with the handler's own `{ error: "... not created!" }` 500. The error escapes
  the handler instead. The `if (!newTag)` / `if (!newContact)` branches are unreachable,
  because the store returns a row or throws.
- The tag route has no parameter defaults. A request without `pageSize` therefore asks for
  zero rows and gets a `null` page count.

## Model

| member | source | states |
|---|---|---|
| Text.Contains | src/database/contacts.ts:9 | `contains: q` holds exactly when `q` occurs at some position of the field |
| Seqs.Filter | src/components/tag-input/index.tsx:81 | `Array.filter`, and the `where` filters of src/database/contacts.ts:7-11: keeps exactly the elements satisfying the predicate, each from the input, every qualifying element present (order and repeats by Seqs.FilterAppend and Seqs.FilterCounts) |
| Seqs.FilterAppend | src/components/tag-input/index.tsx:81 | filtering a concatenation is the concatenation of the filtered parts, so kept elements stay in their input order |
| Seqs.FilterCounts | src/components/tag-input/index.tsx:81 | each value that passes occurs in the result exactly as often as in the input; a value that fails does not occur |
| Seqs.FilterHead | src/database/contacts.ts:40-41 | the filtered list is non-empty iff some element qualifies, and its head is the first qualifying element |
| Seqs.FilterDistinct | src/database/tags.ts:7-22 | filtering a duplicate-free list keeps it duplicate-free |
| Seqs.DistinctCardinality | src/database/tags.ts:20 | a duplicate-free list has as many elements as its set of values |
| Paging.SortNewestFirst | src/database/contacts.ts:26-28 | `orderBy: createdAt desc`: the result is ordered newest first and is a permutation (same multiset) of the input |
| Paging.SortKeepsElements | src/database/tags.ts:8-10 | sorting keeps exactly the same members |
| Paging.Slice | src/database/contacts.ts:24-25 | `skip`/`take`: the rows at positions skip..skip+take-1 that exist, in order |
| Paging.CeilDiv | src/database/contacts.ts:44 | `Math.ceil(count / pageSize)`: the least r with r*pageSize >= count |
| Paging.PageCount | src/database/tags.ts:49 | the page count is null exactly when the page size is 0, otherwise the ceiling |
| Paging.Insert | src/database/contacts.ts:26-28 | placing one row into a newest-first list keeps it newest first and adds exactly that row |
| Paging.InsertBehindHead | src/database/contacts.ts:26-28 | a row older than the head is placed into the tail, behind the head |
| Paging.PagesArePrefix | src/database/contacts.ts:24-25 | the first k pages laid end to end are the first k*pageSize rows, or all rows once past the end |
| Paging.PagesCoverAll | src/database/contacts.ts:24-25 | the pages 0..pageCount-1, laid end to end, give back every row |
| Paging.RowOnOnePage | src/database/contacts.ts:24-25 | every row appears on page row/pageSize, below the page count, at position row%pageSize, and on no other page |
| Paging.PageOfRowUnique | src/database/contacts.ts:24-25 | no row appears on two different pages |
| Records.FindContact | src/database/contacts.ts:73-75 | `where: { id }` finds the contact with that id, or reports that none exists |
| Records.FindTag | src/database/tags.ts:84-87 | `where: { id }` finds the tag with that id, or reports that none exists |
| ContactQueries.Candidates | src/database/contacts.ts:7-11 | the contacts matching `q`, newest first, as many as the count query counts |
| ContactQueries.ToRow | src/database/contacts.ts:35-41 | id, name, number and createdAt are copied; `tag_slug`/`tag_color` are null iff the contact has no tag, else the first tag's slug and colour |
| ContactQueries.PageOfCandidates | src/database/contacts.ts:14-29 | the page has min(pageSize, count - skip) rows (none past the end), all matching, newest first |
| ContactQueries.ListContacts | src/database/contacts.ts:5-47 | every row is the projection of a matching contact, rows are newest first, and the page count is null iff pageSize is 0, otherwise ceil(count/pageSize) |
| ContactQueries.CandidateIsMatch | src/database/contacts.ts:7-11 | every candidate is a contact of the table that matches `q` |
| ContactQueries.RowIsCandidate | src/database/contacts.ts:35-42 | every listed row is the projection of a candidate |
| ContactQueries.EmptyQueryListsEveryContact | src/database/contacts.ts:7-11 | an empty `q` applies no filter: the candidates are a permutation of the whole table and the count is the table size |
| ContactQueries.EveryMatchOnOnePage | src/database/contacts.ts:24-32 | for a positive page size, the n-th matching contact (newest first) is listed on page n / pageSize, and that page index is below the page count (Paging.PageOfRowUnique rules out every other page) |
| ContactQueries.RowAt | src/database/contacts.ts:24-41 | row o of page p is the projection of the candidate at position p*pageSize + o, whenever that candidate exists |
| TagQueries.WithCount | src/database/tags.ts:16-22 | the mapped tag keeps the id, slug, colour and createdAt of the row (its `count` is stated by TagQueries.CountIsJoinCount) |
| TagQueries.CountEach | src/database/tags.ts:16-22 | `tagsRow.map(...)`: one counted tag per row, in the same order, each the row with its count |
| TagQueries.CountEachKeepsOrder | src/database/tags.ts:8-22 | mapping a newest-first row list keeps it newest first |
| TagQueries.CountEachCoversTags | src/database/tags.ts:7-22 | mapping any reordering of the tag table yields every tag's counted entry and nothing else |
| TagQueries.CountEachInsert | src/database/tags.ts:8-22 | counting a newest-first list after one tag is placed into it yields exactly one more entry, that tag's |
| TagQueries.CountEachInsertBehind | src/database/tags.ts:8-22 | the step of CountEachInsert where the tag goes behind the head |
| TagQueries.CountEachSorted | src/database/tags.ts:8-22 | counting the rows after the newest-first ordering gives the same entries, each as often, as counting the table in its own order |
| TagQueries.GetTags | src/database/tags.ts:6-25 | `getTags` returns every tag once with its count, newest first: the result is a permutation (same multiset) of the counted tag table, every entry comes from a tag and every tag has one |
| TagQueries.CountIsJoinCount | src/database/tags.ts:20 | in a consistent store, a tag's count equals the number of join rows naming it |
| TagQueries.JoinedIdsDistinct | src/database/tags.ts:11-13 | the joined contacts of a tag are distinct rows |
| TagQueries.JoinedIdsAreJoinRows | src/database/tags.ts:11-13 | the ids of a tag's joined contacts are exactly the contact ids of its join rows |
| TagQueries.TagCandidates | src/database/tags.ts:29-47 | the tags whose slug contains `q` (all for an empty `q`), newest first, as many as the count query counts |
| TagQueries.ListTags | src/database/tags.ts:27-53 | the page has at most pageSize matching tags, newest first, sliced at pageIndex*pageSize (the offset is justified by TagQueries.TagPagesCoverMatches: pages 0..pageCount-1 laid end to end are the whole match list); the page count is null iff pageSize is 0, otherwise ceil(count/pageSize) |
| TagQueries.EmptyQueryListsEveryTag | src/database/tags.ts:29 | an empty `q` applies no slug filter: the candidates are a permutation of all tags and the count is the table size |
| TagQueries.TagPagesCoverMatches | src/database/tags.ts:36-49 | the page count of the tag listing is ceil(count/pageSize), and its pages 0..pageCount-1 laid end to end give every matching tag |
| Database.Store.CreateContact | src/database/contacts.ts:50-68 | on success, one contact is appended, linked to exactly the tags named by the slugs; a slug naming no tag fails and leaves the store unchanged |
| Database.Store.UpdateContactById | src/database/contacts.ts:70-91 | name and number are overwritten, the tag set becomes old ∪ requested, other contacts and all tags are unchanged; an unknown id or slug fails with no change; the next id is unchanged, so ids are never reused |
| Database.Store.DeleteContactById | src/database/contacts.ts:93-99 | removes only that contact and its join rows, keeps every tag; an unknown id fails with no change; the next id is unchanged |
| Database.Store.CreateTag | src/database/tags.ts:55-64 | appends one tag with the given slug and colour, joined to no contact; a taken slug fails with no change |
| Database.Store.UpdateTagByIdAsWritten | src/database/tags.ts:66-80 | as written: updates the name and number of the contact with that id and never a tag; given a tag id it always fails; the next id is unchanged |
| Database.Store.UpdateTagById | src/database/tags.ts:66-80 | corrected (as its caller in the `[id]` tag route uses it): sets the slug and colour of tag `id`, keeping its createdAt; an unknown id fails with RecordNotFound and a slug held by another tag with UniqueViolation, each with no change; the next id is unchanged |
| Database.Store.DeleteTagById | src/database/tags.ts:82-116 | unknown id fails with "Tag not found" and no change; otherwise the tag is gone, no join names it, contacts, other tags and other joins are unchanged; the detach loop keeps "processed contacts are detached, all else unchanged"; the next id is unchanged |
| Database.RewriteContactKeepsConsistent | src/database/contacts.ts:72-85 | overwriting a contact's row and connecting it to existing tags keeps ids unique and every join row pointing at existing rows |
| Database.RewriteTagKeepsConsistent | src/database/tags.ts:66-80 | overwriting a tag's row with a slug no other tag has keeps ids and slugs unique |
| Database.RemoveTagKeepsConsistent | src/database/tags.ts:110-114 | deleting a tag row after detaching it keeps the store consistent |
| Database.RemoveContactKeepsConsistent | src/database/contacts.ts:94-98 | deleting a contact with its join rows keeps the store consistent |
| Database.RenameTagScenario | src/database/tags.ts:66-80 | renaming a tag through the as-written update fails; the corrected update renames it |
| TagForm.IsSlug | src/components/create-new-tag-dialog.tsx:22 | the slug regex `^[a-zA-Z]+(-[a-zA-Z]+)*$`, run as a two-state scan (characterised by TagForm.SlugCharacterised) |
| TagForm.IsColor | src/components/create-new-tag-dialog.tsx:25-31 | the colour has at least 4 characters |
| TagForm.ValidTagForm | src/components/create-new-tag-dialog.tsx:17-32 | `newTagFormSchema`: a slug matching the regex and a colour of at least 4 characters |
| TagForm.SlugCharacterised | src/components/create-new-tag-dialog.tsx:22 | a slug is accepted iff non-empty, only letters and hyphens, no leading or trailing hyphen, no `--` |
| TagForm.ForeignCharacterRejected | src/components/create-new-tag-dialog.tsx:22 | any digit, space or other non-letter, non-hyphen character rejects the slug |
| TagForm.JoinedWordsAreSlug | src/components/create-new-tag-dialog.tsx:22 | letter words joined by single hyphens are accepted |
| TagForm.SlugSplitsIntoWords | src/components/create-new-tag-dialog.tsx:22 | every accepted slug is letter words joined by single hyphens |
| TagForm.JoinSplit | src/components/create-new-tag-dialog.tsx:22 | splitting at hyphens and re-joining gives the slug back |
| TagForm.DefaultsRejected | src/components/create-new-tag-dialog.tsx:48-51 | the default slug "" fails and the default colour "#E2E2E2" passes |
| TagForm.ExampleSlugsAccepted | src/components/tag-input/tag-form.tsx:59-62 | the example slugs "familia" and "amigos" are accepted |
| ContactForm.ValidContactForm | src/components/create-new-contact-dialog.tsx:26-35 | `newContactFormSchema`: a name and a number of at least one character and exactly one tag (its consequences are stated by ContactForm.DefaultsRejected and ContactRoute.FormAcceptedWhenLongEnough) |
| ContactForm.DefaultsRejected | src/components/create-new-contact-dialog.tsx:51-55 | the default values fail validation |
| SearchParams.Without | src/components/navigation/header.tsx:39 | the list `delete(name)` leaves: no pair of that name, never longer than before |
| SearchParams.WithValue | src/components/navigation/header.tsx:37 | the list `set(name, value)` leaves: the first pair of that name overwritten in place and later ones dropped, or the pair appended (its properties are SearchParams.SetThenGet, SetLeavesOnePair and SetKeepsOthers) |
| SearchParams.Get | src/components/navigation/header.tsx:26 | `get` gives the value of the first pair with that name, null iff there is none |
| SearchParams.UrlSearchParams.Delete | src/components/navigation/header.tsx:39 | `delete` leaves exactly the pairs of other names, in order |
| SearchParams.UrlSearchParams.Set | src/components/navigation/header.tsx:37 | `set` leaves exactly the specification list: first pair overwritten in place, later ones dropped, or a pair appended |
| SearchParams.SetRestStep | src/components/navigation/header.tsx:37 | each pair `set` reads is kept, replaced by the new pair (the first of that name) or dropped (a later one), and the rest follows |
| SearchParams.SetThenGet | src/components/navigation/header.tsx:37 | after `set(k, v)`, `get(k)` is v |
| SearchParams.SetLeavesOnePair | src/components/navigation/header.tsx:37 | after `set(k, v)` exactly one pair is named k |
| SearchParams.SetKeepsOthers | src/components/navigation/header.tsx:42 | `set` changes no pair of another name, nor their order |
| SearchParams.SetIdempotent | src/components/navigation/header.tsx:42 | setting the same value twice equals setting it once |
| SearchParams.DeleteSetCommute | src/components/navigation/header.tsx:48-49 | deleting one name and setting another commute |
| SearchParams.WithoutCommutes | src/components/navigation/header.tsx:39 | deleting two names commutes |
| SearchParams.GetOtherAfterDelete | src/components/navigation/header.tsx:39 | deleting a name leaves `get` of every other name unchanged |
| SearchParams.GetOtherAfterSet | src/components/navigation/header.tsx:37 | setting a name leaves `get` of every other name unchanged |
| SearchParams.UrlSearchParams.GetParam | src/components/navigation/header.tsx:26 | `get(name)` is null exactly when no pair has that name |
| Header.SearchHeader.constructor | src/components/navigation/header.tsx:21-33 | the component copies the page's query into its own parameter list, reads `q` from it with `get`, and starts the field with that value or "" |
| Header.SearchHeader.HandleFilterContact | src/components/navigation/header.tsx:35-45 | the query it navigates to is the current one with `q` set (or deleted when empty) and `page` set to "1" |
| Header.SearchHeader.HandleClearFilters | src/components/navigation/header.tsx:47-56 | empties the field; the query it navigates to has `q` deleted and `page` "1" |
| Header.Filtered | src/components/navigation/header.tsx:35-44 | the query `handleFilterContact` navigates to: `q` set to a non-empty text or deleted, then `page` set to "1" (its properties are Header.FilterResult and FilterIdempotent) |
| Header.Cleared | src/components/navigation/header.tsx:47-56 | the query `handleClearFilters` navigates to: `q` deleted, then `page` set to "1" |
| Header.HasAnyFilter | src/components/navigation/header.tsx:58 | `!!query`: the clear button shows iff the location carries a non-empty `q` |
| Header.FilterResult | src/components/navigation/header.tsx:35-44 | after filtering, `q` is the text iff non-empty (else absent), `page` is "1", every pair of any other name is kept in order, and the clear button shows iff the text was non-empty |
| Header.ClearIsEmptySearch | src/components/navigation/header.tsx:47-50 | clearing equals submitting an empty search |
| Header.ClearIdempotent | src/components/navigation/header.tsx:47-58 | clearing twice equals clearing once, and hides the clear button |
| Header.FilterIdempotent | src/components/navigation/header.tsx:35-44 | submitting the same search twice equals submitting it once |
| TagInput.AddTag | src/components/tag-input/index.tsx:76-78 | the old selection in order with the tag appended |
| TagInput.RemoveTag | src/components/tag-input/index.tsx:80-82 | equals `value.filter(item => item !== tag)`: every occurrence of the tag removed, the other tags kept with their order and repeats |
| TagInput.RemoveAfterAdd | src/components/tag-input/index.tsx:76-82 | removing after adding a tag equals removing it from the old selection |
| TagInput.RemoveAbsent | src/components/tag-input/index.tsx:80-82 | removing an unselected tag changes nothing |
| TagInput.Select | src/components/tag-input/index.tsx:163-175 | choosing an option removes a selected slug and appends an unselected one (its laws are TagInput.SelectFlips, SelectKeepsDistinct and SelectTwice) |
| TagInput.SelectFlips | src/components/tag-input/index.tsx:163-175 | choosing an option flips exactly that slug's membership |
| TagInput.SelectKeepsDistinct | src/components/tag-input/index.tsx:163-175 | choosing keeps a duplicate-free selection duplicate-free |
| TagInput.RemoveKeepsDistinct | src/components/tag-input/index.tsx:80-82 | removing keeps a duplicate-free selection duplicate-free |
| TagInput.SelectTwice | src/components/tag-input/index.tsx:163-175 | for any selection, choosing twice restores it when the slug was absent, and otherwise leaves it without the slug plus the slug once at the end |
| TagInput.PreviewOf | src/components/tag-input/index.tsx:101-122 | no badge for an empty selection, one count badge iff longer than the amount, else one badge per tag |
| TagInput.PreviewIsBounded | src/components/tag-input/index.tsx:42 | a non-empty selection draws between 1 and max(amount, 1) badges; at most 5 with the default amount |
| Http.StringItems | src/app/api/contact/route.ts:9 | `z.array(z.string())` accepts exactly arrays of strings, giving those strings |
| Http.StringArrayRoundTrip | src/app/api/contact/route.ts:9 | a list of strings sent as a JSON array is read back unchanged |
| Http.ParseNumber | src/app/api/contact/route.ts:16-17 | `Number(null)` and `Number("")` are 0, a run of digits is its value, a leading non-digit non-sign gives NaN |
| Http.NumberRoundTrip | src/components/tag-input/index.tsx:58-64 | a non-negative number written into the query string parses back to itself, and written with a leading minus sign parses to its negation |
| Http.OrDefault | src/app/api/contact/route.ts:16-17 | `x || d` is x for a non-zero number and d otherwise, so never 0 when d is not |
| Http.QueryString | src/app/api/contact/route.ts:15 | `String(get("q"))` is the value, or the non-empty text "null" when absent |
| ContactRoute.ParseContactBody | src/app/api/contact/route.ts:6-10 | an accepted body has a name and number of length >= 2 and at least one tag, each taken from the body's fields (the tags are the body's `tags` array of strings); a `tags` array holding a non-string item is refused |
| ContactRoute.ContactBodyRoundTrip | src/app/api/contact/route.ts:6-10 | a body is accepted iff name, number >= 2 and tags >= 1, and then yields exactly the fields sent |
| ContactRoute.ExtraKeyIgnored | src/app/api/contact/route.ts:6-10 | keys outside the schema do not change the outcome |
| ContactRoute.OneCharacterNameOnlyPassesForm | src/components/create-new-contact-dialog.tsx:27 | a one-character name passes the form, but the server rejects it |
| ContactRoute.FormAcceptedWhenLongEnough | src/app/api/contact/route.ts:7-9 | a valid form with name and number of length >= 2 is accepted by the server unchanged |
| ContactRoute.ContactListParams | src/app/api/contact/route.ts:15-17 | `q` is `String(get("q"))`, a missing index is 0, a missing size is 20, and the size is never 0 |
| ContactRoute.GetContacts | src/app/api/contact/route.ts:12-22 | 201 with the listing for the coerced parameters; a negative index or size lets the store's error escape |
| ContactRoute.ListingAlwaysHasPageCount | src/app/api/contact/route.ts:17 | a contact listing's page count is never null |
| ContactRoute.BareRequestSearchesForNull | src/app/api/contact/route.ts:15-17 | a request without parameters lists the first 20 contacts whose name or number contain "null" |
| ContactRoute.FalsyParametersFallBack | src/app/api/contact/route.ts:16-17 | a zero or NaN index and size fall back to 0 and 20 |
| ContactRoute.PostContact | src/app/api/contact/route.ts:24-50 | an invalid body gives 400 with the store untouched; a valid one gives 201 "Created successfully!" iff every slug names a tag, appending exactly that contact and adding exactly its join rows to the named tags (every other join row kept); otherwise the error escapes with no change |
| TagRoute.ParseTagBody | src/app/api/tag/route.ts:6-9 | an accepted body has a slug of length >= 2 and a string colour, taken from its fields |
| TagRoute.TagBodyRoundTrip | src/app/api/tag/route.ts:6-9 | a body is accepted iff the slug has length >= 2, and then yields exactly the fields sent |
| TagRoute.ServerIgnoresSlugGrammar | src/app/api/tag/route.ts:6-9 | the server accepts the slug "42" with an empty colour, which the form refuses |
| TagRoute.OneLetterSlugOnlyPassesForm | src/components/create-new-tag-dialog.tsx:22 | the one-letter slug "a" passes the form, but the server rejects it |
| TagRoute.FormAcceptedWhenLongEnough | src/app/api/tag/route.ts:6-9 | a valid form with a slug of length >= 2 is accepted by the server unchanged |
| TagRoute.TagListParamsOf | src/app/api/tag/route.ts:14-16 | `q` is `String(get("q"))`, and the page index and size are `Number(get(...))` with no default |
| TagRoute.GetTagsRoute | src/app/api/tag/route.ts:12-20 | 201 with the tag page for the coerced parameters; NaN or a negative number lets the store's error escape |
| TagRoute.BareRequestListsNothing | src/app/api/tag/route.ts:14-16 | without parameters the page size is 0: no tags and a null page count |
| TagRoute.PickerRequest | src/components/tag-input/index.tsx:56-64 | the tag picker's request gets the first 20 tags matching its search text |
| TagRoute.PostTag | src/app/api/tag/route.ts:24-49 | an invalid body gives 400 with the store untouched; a valid one gives 201 iff the slug is free, appending exactly that tag; otherwise the error escapes with no change |
| TagRoute.PostTwice | src/app/api/tag/route.ts:39-41 | posting the same valid tag twice: the first is created, the second ends in a 500 |

## Left out

- The relational store, Prisma and the react `cache` wrappers are replaced by the `Store` class. Engine-dependent case folding of `contains` is not modelled: matching is exact.
- The order of rows with equal `createdAt` is the store's choice. The model fixes one order: stable, in table order.
- `Promise.all` runs the two list queries and the detach updates concurrently. The model runs them one after another, and the delete transaction is all-or-nothing.
- `Math.ceil` works on floating point. The model uses integer ceiling division. The `?? 0` after it in `getTagsWithLimitAndOffset` never applies, because `Math.ceil` never yields null or undefined. For a page size of 0 the source's `NaN` or `Infinity` page count is serialised as JSON `null`, which the model gives as `None`.
- Http.ParseNumber: does not model the rest of JavaScript's `Number` grammar. Surrounding whitespace, fractions, exponents, hex, binary and octal prefixes, and `Infinity` all give NaN in the model.
- ContactRoute.GetContacts, TagRoute.GetTagsRoute: a negative `take` with a zero `skip` is read by the store as counting from the end. The model refuses every negative page index or size.
- Status codes and payloads are datatypes. `NextResponse`, JSON text parsing and a malformed request body are not modelled; the body arrives as a parsed `Json` value.
- Lengths are counted in Dafny characters. zod counts UTF-16 code units.
- The header's `replace` navigation and `URLSearchParams.toString` serialisation are not modelled. A handler returns the parameter list it navigates to.
- `createdAt` is not read from a clock. It is an argument to the create methods.
- The tag picker's option fetching, debouncing, loading states, dialogs and toasts are rendering plumbing, and are not modelled.
- The other components and pages (sidebar, colour picker, copy button, profile, layout, providers, the `/api/tags` passthrough and the `[id]` routes) are not part of this model. The one exception is the `[id]` tag route's call to `updateTagById`, which is cited as the intended signature.

## Findings

| source | as written | input that shows it | evidently intended | confidence | as-written member | corrected member |
|---|---|---|---|---|---|---|
| src/database/tags.ts:66-80 | `updateTagById(id, name, contact)` runs `prisma.contact.update` on the contact with that id, setting its name and number | any existing tag's id with a new slug and colour: no contact has that id, so the update throws and the tag is never renamed | set the `slug` and `color` of the tag with that id, as its caller `src/app/api/tag/[id]/route.ts:34` passes `(id, slug, color)` | high (not executed) | Database.Store.UpdateTagByIdAsWritten | Database.Store.UpdateTagById |
