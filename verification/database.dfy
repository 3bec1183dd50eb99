/**
 * The write side of the store: `createContact`, `updateContactById` and
 * `deleteContactById` from the contact module, and `createTag`, `updateTagById` and
 * `deleteTagById` from the tag module, as methods on one store object whose tables the
 * methods update in place.
 */
module Database {
  import opened Wrappers
  import opened Seqs
  import opened Records

  /** The join rows `links` without those of tag `tagId` that attach one of `cs`. */
  function DetachedLinks(cs: seq<Contact>, tagId: Id): set<Link> {
    set k | 0 <= k < |cs| :: Link(cs[k].id, tagId)
  }

  class Store {
    var contacts: seq<Contact>
    var tags: seq<Tag>
    var links: set<Link>
    /** The next row id the store will issue. */
    var nextId: Id

    ghost predicate Valid()
      reads this
    {
      Consistent(contacts, tags, links, nextId)
    }

    /** An empty address book. */
    constructor ()
      ensures Valid()
      ensures contacts == [] && tags == [] && links == {}
    {
      contacts := [];
      tags := [];
      links := {};
      nextId := 0;
    }

    /**
     * `createContact(name, contact, slugs)`: inserts a contact created at `now` and connects
     * it to the tags named by `slugs`. A slug naming no tag makes the whole insert fail.
     */
    method CreateContact(name: string, contact: string, slugs: seq<string>, now: int)
      returns (r: Result<Contact, DbError>)
      requires Valid()
      modifies this
      ensures Valid()
      ensures r.Success? <==> SlugsExist(old(tags), slugs)
      ensures r.Failure? ==> r.error == RecordNotFound && unchanged(this)
      ensures r.Success? ==>
        && r.value == Contact(old(nextId), name, contact, now)
        && r.value.id !in ContactIds(old(contacts))
        && contacts == old(contacts) + [r.value]
        && tags == old(tags)
        && links == old(links) + LinksTo(r.value.id, TagIdsForSlugs(tags, slugs))
        && TagIdsOf(links, r.value.id) == TagIdsForSlugs(tags, slugs)
    {
      if !SlugsExist(tags, slugs) {
        return Failure(RecordNotFound);
      }
      var c := Contact(nextId, name, contact, now);
      assert nextId !in ContactIds(contacts);
      assert nextId !in TagIds(tags);
      AppendContactIds(contacts, c);
      NoLinksOfFreshId(contacts, tags, links, nextId);
      LinkingAddsExactly(links, c.id, TagIdsForSlugs(tags, slugs));
      contacts := contacts + [c];
      links := links + LinksTo(c.id, TagIdsForSlugs(tags, slugs));
      nextId := nextId + 1;
      r := Success(c);
    }

    /**
     * `updateContactById(id, name, contact, slugs)`: overwrites the name and number and
     * connects the named tags. Tags already attached stay attached.
     */
    method UpdateContactById(id: Id, name: string, contact: string, slugs: seq<string>)
      returns (r: Result<Contact, DbError>)
      requires Valid()
      modifies this
      ensures Valid()
      ensures nextId == old(nextId)
      ensures r.Success? <==> id in ContactIds(old(contacts)) && SlugsExist(old(tags), slugs)
      ensures r.Failure? ==> r.error == RecordNotFound && unchanged(this)
      ensures r.Success? ==>
        var i := FindContact(old(contacts), id).value;
        && r.value == Contact(id, name, contact, old(contacts)[i].createdAt)
        && contacts == old(contacts)[i := r.value]
        && tags == old(tags)
        && links == old(links) + LinksTo(id, TagIdsForSlugs(tags, slugs))
        && TagIdsOf(links, id) == TagIdsOf(old(links), id) + TagIdsForSlugs(tags, slugs)
        && forall other :: other != id ==> TagIdsOf(links, other) == TagIdsOf(old(links), other)
    {
      var found := FindContact(contacts, id);
      if found.None? || !SlugsExist(tags, slugs) {
        return Failure(RecordNotFound);
      }
      var i := found.value;
      var c := Contact(id, name, contact, contacts[i].createdAt);
      RewriteContactKeepsConsistent(contacts, tags, links, nextId, i, c, TagIdsForSlugs(tags, slugs));
      LinkingAddsExactly(links, id, TagIdsForSlugs(tags, slugs));
      contacts := contacts[i := c];
      links := links + LinksTo(id, TagIdsForSlugs(tags, slugs));
      r := Success(c);
    }

    /** `deleteContactById(id)`: removes the contact and its join rows; tags stay. */
    method DeleteContactById(id: Id) returns (r: Result<(), DbError>)
      requires Valid()
      modifies this
      ensures Valid()
      ensures nextId == old(nextId)
      ensures r.Success? <==> id in ContactIds(old(contacts))
      ensures id in TagIds(old(tags)) ==> r.Failure?
      ensures r.Failure? ==> r.error == RecordNotFound && unchanged(this)
      ensures r.Success? ==>
        var i := FindContact(old(contacts), id).value;
        && contacts == old(contacts)[..i] + old(contacts)[i + 1..]
        && id !in ContactIds(contacts)
        && tags == old(tags)
        && links == LinksWithoutContact(old(links), id)
    {
      var found := FindContact(contacts, id);
      if found.None? {
        return Failure(RecordNotFound);
      }
      var i := found.value;
      RemoveContactKeepsConsistent(contacts, tags, links, nextId, i);
      contacts := contacts[..i] + contacts[i + 1..];
      links := LinksWithoutContact(links, id);
      r := Success(());
    }

    /** `createTag(slug, color)`: inserts a tag created at `now`, joined to no contact. Slugs are unique. */
    method CreateTag(slug: string, color: string, now: int) returns (r: Result<Tag, DbError>)
      requires Valid()
      modifies this
      ensures Valid()
      ensures r.Success? <==> slug !in Slugs(old(tags))
      ensures r.Failure? ==> r.error == UniqueViolation && unchanged(this)
      ensures r.Success? ==>
        && r.value == Tag(old(nextId), slug, color, now)
        && r.value.id !in TagIds(old(tags))
        && tags == old(tags) + [r.value]
        && contacts == old(contacts)
        && links == old(links)
        && forall l :: l in links ==> l.tagId != r.value.id
    {
      if slug in Slugs(tags) {
        return Failure(UniqueViolation);
      }
      var t := Tag(nextId, slug, color, now);
      assert nextId !in ContactIds(contacts);
      assert nextId !in TagIds(tags);
      AppendTagIds(tags, t);
      tags := tags + [t];
      nextId := nextId + 1;
      r := Success(t);
    }

    /**
     * `updateTagById(id, name, contact)` as the source has it: it updates the name and number
     * of the CONTACT whose id is `id`, and no tag. Given a tag's id it finds no contact and fails.
     */
    method UpdateTagByIdAsWritten(id: Id, name: string, contact: string)
      returns (r: Result<Contact, DbError>)
      requires Valid()
      modifies this
      ensures Valid()
      ensures nextId == old(nextId)
      ensures tags == old(tags) && links == old(links)
      ensures r.Success? <==> id in ContactIds(old(contacts))
      ensures id in TagIds(old(tags)) ==> r.Failure?
      ensures r.Failure? ==> r.error == RecordNotFound && unchanged(this)
      ensures r.Success? ==>
        var i := FindContact(old(contacts), id).value;
        && r.value == Contact(id, name, contact, old(contacts)[i].createdAt)
        && contacts == old(contacts)[i := r.value]
    {
      var found := FindContact(contacts, id);
      if found.None? {
        return Failure(RecordNotFound);
      }
      var i := found.value;
      var c := Contact(id, name, contact, contacts[i].createdAt);
      assert ContactIds(contacts[i := c]) == ContactIds(contacts) by {
        assert forall k :: 0 <= k < |contacts| ==> contacts[i := c][k].id == contacts[k].id;
      }
      contacts := contacts[i := c];
      r := Success(c);
    }

    /**
     * The tag update the endpoint means to perform: set the slug and colour of the tag `id`.
     * Fails on an unknown id and on a slug another tag already has.
     */
    method UpdateTagById(id: Id, slug: string, color: string) returns (r: Result<Tag, DbError>)
      requires Valid()
      modifies this
      ensures Valid()
      ensures nextId == old(nextId)
      ensures contacts == old(contacts) && links == old(links)
      ensures r.Failure? <==>
        id !in TagIds(old(tags))
        || exists k :: 0 <= k < |old(tags)| && old(tags)[k].slug == slug && old(tags)[k].id != id
      ensures r.Failure? ==> unchanged(this)
      ensures r.Failure? ==> r.error == (if id !in TagIds(old(tags)) then RecordNotFound else UniqueViolation)
      ensures r.Success? ==>
        var i := FindTag(old(tags), id).value;
        && r.value == Tag(id, slug, color, old(tags)[i].createdAt)
        && tags == old(tags)[i := r.value]
    {
      var found := FindTag(tags, id);
      if found.None? {
        return Failure(RecordNotFound);
      }
      var i := found.value;
      if exists k :: 0 <= k < |tags| && tags[k].slug == slug && tags[k].id != id {
        return Failure(UniqueViolation);
      }
      var t := Tag(id, slug, color, tags[i].createdAt);
      RewriteTagKeepsConsistent(contacts, tags, links, nextId, i, t);
      tags := tags[i := t];
      r := Success(t);
    }

    /**
     * `deleteTagById(id)`, one transaction: look the tag up with its contacts (failing with
     * "Tag not found"), disconnect it from each of those contacts, then delete the tag row.
     */
    method DeleteTagById(id: Id) returns (r: Result<(), DbError>)
      requires Valid()
      modifies this
      ensures Valid()
      ensures nextId == old(nextId)
      ensures r.Success? <==> id in TagIds(old(tags))
      ensures r.Failure? ==> r.error == TagNotFound && unchanged(this)
      ensures r.Success? ==>
        var i := FindTag(old(tags), id).value;
        && tags == old(tags)[..i] + old(tags)[i + 1..]
        && id !in TagIds(tags)
        && contacts == old(contacts)
        && links == LinksWithoutTag(old(links), id)
    {
      var found := FindTag(tags, id);
      if found.None? {
        return Failure(TagNotFound);
      }
      var i := found.value;
      var joined := ContactsOfTag(contacts, links, id);
      var k := 0;
      while k < |joined|
        invariant 0 <= k <= |joined|
        invariant contacts == old(contacts) && tags == old(tags) && nextId == old(nextId)
        // the contacts handled so far no longer carry the tag; every other join row is untouched
        invariant links == old(links) - DetachedLinks(joined[..k], id)
      {
        DetachOneMore(joined, k, id);
        links := links - {Link(joined[k].id, id)};
        k := k + 1;
      }
      assert joined[..k] == joined;
      DetachedAll(contacts, tags, old(links), nextId, id);
      RemoveTagKeepsConsistent(contacts, tags, links, nextId, i);
      tags := tags[..i] + tags[i + 1..];
      r := Success(());
    }
  }

  /**
   * Disconnecting the tag from every contact that `include: { contacts: true }` returned
   * removes every join row of the tag: in a consistent store each such row names a listed contact.
   */
  lemma DetachedAll(contacts: seq<Contact>, tags: seq<Tag>, links: set<Link>, nextId: Id, tagId: Id)
    requires Consistent(contacts, tags, links, nextId)
    ensures links - DetachedLinks(ContactsOfTag(contacts, links, tagId), tagId)
         == LinksWithoutTag(links, tagId)
  {
    var joined := ContactsOfTag(contacts, links, tagId);
    forall l | l in links && l.tagId == tagId ensures l in DetachedLinks(joined, tagId) {
      var a :| 0 <= a < |contacts| && contacts[a].id == l.contactId;
      assert contacts[a] in joined;
      var k :| 0 <= k < |joined| && joined[k] == contacts[a];
      assert Link(joined[k].id, tagId) == l;
    }
  }

  lemma DetachOneMore(cs: seq<Contact>, k: nat, tagId: Id)
    requires k < |cs|
    ensures DetachedLinks(cs[..k + 1], tagId) == DetachedLinks(cs[..k], tagId) + {Link(cs[k].id, tagId)}
  {
    assert forall j :: 0 <= j < k ==> cs[..k + 1][j] == cs[..k][j];
    assert cs[..k + 1][k] == cs[k];
  }

  lemma AppendContactIds(cs: seq<Contact>, c: Contact)
    ensures ContactIds(cs + [c]) == ContactIds(cs) + {c.id}
  {
    assert (cs + [c])[|cs|] == c;
    assert forall k :: 0 <= k < |cs| ==> (cs + [c])[k] == cs[k];
  }

  lemma AppendTagIds(ts: seq<Tag>, t: Tag)
    ensures TagIds(ts + [t]) == TagIds(ts) + {t.id}
  {
    assert (ts + [t])[|ts|] == t;
    assert forall k :: 0 <= k < |ts| ==> (ts + [t])[k] == ts[k];
  }

  /** No join row mentions an id the store has not issued yet. */
  lemma NoLinksOfFreshId(contacts: seq<Contact>, tags: seq<Tag>, links: set<Link>, nextId: Id)
    requires Consistent(contacts, tags, links, nextId)
    ensures TagIdsOf(links, nextId) == {}
    ensures forall l :: l in links ==> l.contactId != nextId && l.tagId != nextId
  {
  }

  /** Connecting contact `cid` to `ids` adds exactly `ids` to its tags and leaves every other contact's tags alone. */
  lemma LinkingAddsExactly(links: set<Link>, cid: Id, ids: set<Id>)
    ensures TagIdsOf(links + LinksTo(cid, ids), cid) == TagIdsOf(links, cid) + ids
    ensures forall other :: other != cid ==> TagIdsOf(links + LinksTo(cid, ids), other) == TagIdsOf(links, other)
  {
    forall t | t in ids ensures t in TagIdsOf(links + LinksTo(cid, ids), cid) {
      assert Link(cid, t) in LinksTo(cid, ids);
    }
  }

  /** Overwriting a contact's row in place and joining it to existing tags keeps the store consistent. */
  lemma RewriteContactKeepsConsistent(
    contacts: seq<Contact>, tags: seq<Tag>, links: set<Link>, nextId: Id, i: nat, c: Contact, ids: set<Id>)
    requires i < |contacts| && c.id == contacts[i].id
    requires Consistent(contacts, tags, links, nextId)
    requires ids <= TagIds(tags)
    ensures ContactIds(contacts[i := c]) == ContactIds(contacts)
    ensures Consistent(contacts[i := c], tags, links + LinksTo(c.id, ids), nextId)
  {
    var cs := contacts[i := c];
    assert forall k :: 0 <= k < |contacts| ==> cs[k].id == contacts[k].id;
    assert ContactIds(cs) == ContactIds(contacts);
    assert c.id in ContactIds(contacts);
  }

  /** Overwriting a tag's row in place with a slug no other tag has keeps the store consistent. */
  lemma RewriteTagKeepsConsistent(contacts: seq<Contact>, tags: seq<Tag>, links: set<Link>, nextId: Id, i: nat, t: Tag)
    requires i < |tags| && t.id == tags[i].id
    requires Consistent(contacts, tags, links, nextId)
    requires forall k :: 0 <= k < |tags| && tags[k].id != t.id ==> tags[k].slug != t.slug
    ensures TagIds(tags[i := t]) == TagIds(tags)
    ensures Consistent(contacts, tags[i := t], links, nextId)
  {
    var ts := tags[i := t];
    assert forall k :: 0 <= k < |tags| ==> ts[k].id == tags[k].id;
    assert TagIds(ts) == TagIds(tags);
    forall a, b | 0 <= a < b < |ts| ensures ts[a].slug != ts[b].slug {
      if a == i {
        assert tags[b].id != t.id;
      } else if b == i {
        assert tags[a].id != t.id;
      }
    }
  }

  /** Deleting the row of a tag that no join row references keeps the store consistent. */
  lemma RemoveTagKeepsConsistent(contacts: seq<Contact>, tags: seq<Tag>, links: set<Link>, nextId: Id, i: nat)
    requires i < |tags|
    requires Consistent(contacts, tags, links, nextId)
    requires forall l :: l in links ==> l.tagId != tags[i].id
    ensures TagIds(tags[..i] + tags[i + 1..]) == TagIds(tags) - {tags[i].id}
    ensures Consistent(contacts, tags[..i] + tags[i + 1..], links, nextId)
  {
    var rest := tags[..i] + tags[i + 1..];
    assert forall j :: 0 <= j < |rest| ==> rest[j] == tags[if j < i then j else j + 1];
    forall a, b | 0 <= a < b < |rest|
      ensures rest[a].id != rest[b].id && rest[a].slug != rest[b].slug
    {
      var a', b' := if a < i then a else a + 1, if b < i then b else b + 1;
      assert a' < b' && rest[a] == tags[a'] && rest[b] == tags[b'];
    }
    forall x | x in TagIds(tags) - {tags[i].id} ensures x in TagIds(rest) {
      var j :| 0 <= j < |tags| && tags[j].id == x;
      if j < i { assert rest[j].id == x; } else { assert rest[j - 1].id == x; }
    }
    forall x | x in TagIds(rest) ensures x in TagIds(tags) - {tags[i].id} {
      var j :| 0 <= j < |rest| && rest[j].id == x;
      var j' := if j < i then j else j + 1;
      assert tags[j'].id == x && j' != i;
    }
  }

  /** Deleting the row of a contact and its join rows keeps the store consistent. */
  lemma RemoveContactKeepsConsistent(contacts: seq<Contact>, tags: seq<Tag>, links: set<Link>, nextId: Id, i: nat)
    requires i < |contacts|
    requires Consistent(contacts, tags, links, nextId)
    ensures ContactIds(contacts[..i] + contacts[i + 1..]) == ContactIds(contacts) - {contacts[i].id}
    ensures Consistent(contacts[..i] + contacts[i + 1..], tags, LinksWithoutContact(links, contacts[i].id), nextId)
  {
    var rest := contacts[..i] + contacts[i + 1..];
    assert forall j :: 0 <= j < |rest| ==> rest[j] == (if j < i then contacts[j] else contacts[j + 1]);
    forall x | x in ContactIds(contacts) - {contacts[i].id} ensures x in ContactIds(rest) {
      var j :| 0 <= j < |contacts| && contacts[j].id == x;
      if j < i { assert rest[j].id == x; } else { assert rest[j - 1].id == x; }
    }
  }

  /**
   * Renaming a tag through the tag-update endpoint: with the update as written the call
   * fails, since the tag's id names no contact; the intended update renames the tag.
   */
  method RenameTagScenario() returns (asWritten: Result<Contact, DbError>, corrected: Result<Tag, DbError>)
    ensures asWritten == Failure(RecordNotFound)
    ensures corrected.Success? && corrected.value.slug == "amigos" && corrected.value.color == "#00FF00"
  {
    var store := new Store();
    var created := store.CreateTag("familia", "#E2E2E2", 0);
    var id := created.value.id;
    assert store.tags == [Tag(id, "familia", "#E2E2E2", 0)];
    assert store.tags[0].id == id;
    assert id in TagIds(store.tags);
    asWritten := store.UpdateTagByIdAsWritten(id, "amigos", "#00FF00");
    assert store.tags[0].slug != "amigos";
    corrected := store.UpdateTagById(id, "amigos", "#00FF00");
  }
}
