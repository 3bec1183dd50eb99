/**
 * The rows of the address book: contacts, tags, and the implicit many-to-many join
 * between them, together with the referential-integrity and uniqueness rules the
 * relational store keeps.
 */
module Records {
  import opened Wrappers
  import opened Seqs

  /** Row identifiers. The store draws them from one source, so no contact shares an id with a tag. */
  type Id = nat

  datatype Contact = Contact(id: Id, name: string, contact: string, createdAt: int)

  datatype Tag = Tag(id: Id, slug: string, color: string, createdAt: int)

  /** One join row: contact `contactId` carries tag `tagId`. */
  datatype Link = Link(contactId: Id, tagId: Id)

  /** The errors the store raises; none of them is caught by the route handlers. */
  datatype DbError =
    | RecordNotFound    // update/delete/connect on a row that does not exist
    | UniqueViolation   // a second tag with an existing slug
    | TagNotFound       // `deleteTagById`'s own "Tag not found" error
    | InvalidPaging     // a `skip` or `take` that is not a non-negative integer

  function ContactIds(contacts: seq<Contact>): set<Id> {
    set i | 0 <= i < |contacts| :: contacts[i].id
  }

  function TagIds(tags: seq<Tag>): set<Id> {
    set i | 0 <= i < |tags| :: tags[i].id
  }

  function Slugs(tags: seq<Tag>): set<string> {
    set i | 0 <= i < |tags| :: tags[i].slug
  }

  /** The position of the contact with id `id` (`where: { id }` on the contact table). */
  function FindContact(contacts: seq<Contact>, id: Id): (r: Option<nat>)
    ensures r.Some? ==> r.value < |contacts| && contacts[r.value].id == id
    ensures r.None? <==> id !in ContactIds(contacts)
  {
    IndexWhere(contacts, (c: Contact) => c.id == id)
  }

  /** The position of the tag with id `id` (`where: { id }` on the tag table). */
  function FindTag(tags: seq<Tag>, id: Id): (r: Option<nat>)
    ensures r.Some? ==> r.value < |tags| && tags[r.value].id == id
    ensures r.None? <==> id !in TagIds(tags)
  {
    IndexWhere(tags, (t: Tag) => t.id == id)
  }

  /** The ids of the tags a contact carries. */
  function TagIdsOf(links: set<Link>, contactId: Id): set<Id> {
    set l | l in links && l.contactId == contactId :: l.tagId
  }

  /** The tags whose slug is one of `slugs` (`connect: slugs.map(slug => ({ slug }))`). */
  function TagIdsForSlugs(tags: seq<Tag>, slugs: seq<string>): set<Id> {
    set i | 0 <= i < |tags| && tags[i].slug in slugs :: tags[i].id
  }

  /** The join rows attaching contact `contactId` to each tag in `tagIds`. */
  function LinksTo(contactId: Id, tagIds: set<Id>): set<Link> {
    set t | t in tagIds :: Link(contactId, t)
  }

  /** The join rows that do not attach contact `contactId`. */
  function LinksWithoutContact(links: set<Link>, contactId: Id): set<Link> {
    set l | l in links && l.contactId != contactId
  }

  /** The join rows that do not attach tag `tagId`. */
  function LinksWithoutTag(links: set<Link>, tagId: Id): set<Link> {
    set l | l in links && l.tagId != tagId
  }

  /** Every slug names an existing tag, so a `connect` by slug finds all its rows. */
  predicate SlugsExist(tags: seq<Tag>, slugs: seq<string>) {
    forall s :: s in slugs ==> s in Slugs(tags)
  }

  /** The contacts joined to tag `tagId`, in table order (`include: { contacts: true }`). */
  function ContactsOfTag(contacts: seq<Contact>, links: set<Link>, tagId: Id): seq<Contact> {
    Filter(contacts, (c: Contact) => Link(c.id, tagId) in links)
  }

  /** The tags joined to contact `contactId`, in table order (`include: { tags: ... }`). */
  function TagsOfContact(tags: seq<Tag>, links: set<Link>, contactId: Id): seq<Tag> {
    Filter(tags, (t: Tag) => Link(contactId, t.id) in links)
  }

  /**
   * What the relational store guarantees between statements: ids are unique and below the
   * next id to be issued, contact and tag ids never coincide, slugs are unique, and every
   * join row references an existing contact and an existing tag.
   */
  ghost predicate Consistent(contacts: seq<Contact>, tags: seq<Tag>, links: set<Link>, nextId: Id) {
    && (forall i, j :: 0 <= i < j < |contacts| ==> contacts[i].id != contacts[j].id)
    && (forall i, j :: 0 <= i < j < |tags| ==> tags[i].id != tags[j].id)
    && (forall i, j :: 0 <= i < j < |tags| ==> tags[i].slug != tags[j].slug)
    && (forall i :: 0 <= i < |contacts| ==> contacts[i].id < nextId)
    && (forall i :: 0 <= i < |tags| ==> tags[i].id < nextId)
    && ContactIds(contacts) !! TagIds(tags)
    && (forall l :: l in links ==> l.contactId in ContactIds(contacts) && l.tagId in TagIds(tags))
  }
}
