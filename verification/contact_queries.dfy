/**
 * The contact listing of `getContactsWithLimitAndOffset`: the optional name-or-number
 * filter, newest-first offset pagination, the "first tag or null" projection of each row
 * and the page count.
 */
module ContactQueries {
  import opened Wrappers
  import opened Text
  import opened Seqs
  import opened Paging
  import opened Records

  /** One listed contact: the contact's own fields plus the slug and colour of its first tag, or null. */
  datatype ContactRow = ContactRow(
    id: Id, name: string, contact: string, createdAt: int,
    tagSlug: Option<string>, tagColor: Option<string>)

  /** The listing payload `{ contacts, pageCount }`. */
  datatype ContactPage = ContactPage(contacts: seq<ContactRow>, pageCount: Option<nat>)

  /** The `where` filter: none for an empty query, else `q` inside the name or inside the number. */
  predicate MatchesQuery(q: string, c: Contact) {
    |q| == 0 || Contains(c.name, q) || Contains(c.contact, q)
  }

  function CreatedAt(c: Contact): int { c.createdAt }

  /** The matching contacts in the store's order, newest first: what `skip`/`take` cut pages from. */
  function Candidates(contacts: seq<Contact>, q: string): (r: seq<Contact>)
    ensures NewestFirst(r, CreatedAt)
    ensures multiset(r) == multiset(Filter(contacts, c => MatchesQuery(q, c)))
    ensures |r| == MatchCount(contacts, q)
  {
    SortNewestFirst(Filter(contacts, c => MatchesQuery(q, c)), CreatedAt)
  }

  /** The `count` query, run with the same filter as the page query. */
  function MatchCount(contacts: seq<Contact>, q: string): nat {
    |Filter(contacts, c => MatchesQuery(q, c))|
  }

  /** The `contacts.map(...)` projection of one contact row. */
  function ToRow(c: Contact, tags: seq<Tag>, links: set<Link>): (r: ContactRow)
    ensures r.id == c.id && r.name == c.name && r.contact == c.contact && r.createdAt == c.createdAt
    ensures r.tagSlug.None? <==> r.tagColor.None?
    ensures r.tagSlug.None? <==> forall i :: 0 <= i < |tags| ==> Link(c.id, tags[i].id) !in links
    ensures r.tagSlug.Some? ==>
      exists i :: 0 <= i < |tags| && Link(c.id, tags[i].id) in links
        && r.tagSlug.value == tags[i].slug && r.tagColor.value == tags[i].color
        && forall j :: 0 <= j < i ==> Link(c.id, tags[j].id) !in links
  {
    var own := TagsOfContact(tags, links, c.id);
    FilterHead(tags, (t: Tag) => Link(c.id, t.id) in links);
    ContactRow(
      c.id, c.name, c.contact, c.createdAt,
      if |own| > 0 then Some(own[0].slug) else None,
      if |own| > 0 then Some(own[0].color) else None)
  }

  /** The contacts on page `pageIndex`: the `findMany` with `skip` and `take`. */
  function PageOfCandidates(contacts: seq<Contact>, q: string, pageIndex: nat, pageSize: nat): (page: seq<Contact>)
    ensures |page| <= pageSize
    ensures Offset(pageIndex, pageSize) < MatchCount(contacts, q) ==>
      |page| == if MatchCount(contacts, q) - Offset(pageIndex, pageSize) < pageSize
                then MatchCount(contacts, q) - Offset(pageIndex, pageSize) else pageSize
    ensures Offset(pageIndex, pageSize) >= MatchCount(contacts, q) ==> page == []
    ensures forall k :: 0 <= k < |page| ==>
      exists i :: 0 <= i < |contacts| && MatchesQuery(q, contacts[i]) && page[k] == contacts[i]
    ensures NewestFirst(page, CreatedAt)
  {
    var ordered := Candidates(contacts, q);
    var page := Slice(ordered, Offset(pageIndex, pageSize), pageSize);
    forall k | 0 <= k < |page|
      ensures exists i :: 0 <= i < |contacts| && MatchesQuery(q, contacts[i]) && page[k] == contacts[i]
    {
      CandidateIsMatch(contacts, q, Offset(pageIndex, pageSize) + k);
    }
    page
  }

  /** `getContactsWithLimitAndOffset(q, pageIndex, pageSize)`. */
  function ListContacts(
    contacts: seq<Contact>, tags: seq<Tag>, links: set<Link>,
    q: string, pageIndex: nat, pageSize: nat): (r: ContactPage)
    ensures |r.contacts| == |PageOfCandidates(contacts, q, pageIndex, pageSize)|
    ensures forall k :: 0 <= k < |r.contacts| ==>
      exists i :: 0 <= i < |contacts| && MatchesQuery(q, contacts[i])
        && r.contacts[k] == ToRow(contacts[i], tags, links)
    ensures forall k, l :: 0 <= k < l < |r.contacts| ==> r.contacts[k].createdAt >= r.contacts[l].createdAt
    ensures r.pageCount.None? <==> pageSize == 0
    ensures r.pageCount.Some? ==>
      r.pageCount.value * pageSize >= MatchCount(contacts, q)
      && (r.pageCount.value == 0 || (r.pageCount.value - 1) * pageSize < MatchCount(contacts, q))
  {
    var page := PageOfCandidates(contacts, q, pageIndex, pageSize);
    ContactPage(
      seq(|page|, k requires 0 <= k < |page| => ToRow(page[k], tags, links)),
      PageCount(MatchCount(contacts, q), pageSize))
  }

  /** Every candidate is a contact of the table that matches the query. */
  lemma CandidateIsMatch(contacts: seq<Contact>, q: string, n: nat)
    requires n < |Candidates(contacts, q)|
    ensures exists i :: 0 <= i < |contacts| && MatchesQuery(q, contacts[i]) && Candidates(contacts, q)[n] == contacts[i]
  {
    var all := Candidates(contacts, q);
    var matching := Filter(contacts, c => MatchesQuery(q, c));
    assert all[n] in multiset(matching) by {
      assert all[n] in multiset(all);
    }
    var k :| 0 <= k < |matching| && matching[k] == all[n];
    var i :| 0 <= i < |contacts| && contacts[i] == matching[k];
  }

  /** Row `k` of the page is the projection of candidate `Offset(pageIndex, pageSize) + k`. */
  lemma {:induction false} RowIsCandidate(
    contacts: seq<Contact>, tags: seq<Tag>, links: set<Link>,
    q: string, pageIndex: nat, pageSize: nat, k: nat)
    requires k < |ListContacts(contacts, tags, links, q, pageIndex, pageSize).contacts|
    ensures Offset(pageIndex, pageSize) + k < |Candidates(contacts, q)|
    ensures ListContacts(contacts, tags, links, q, pageIndex, pageSize).contacts[k]
         == ToRow(Candidates(contacts, q)[Offset(pageIndex, pageSize) + k], tags, links)
  {
  }

  /** An empty query filters nothing: the candidates are exactly the table, reordered newest first. */
  lemma EmptyQueryListsEveryContact(contacts: seq<Contact>)
    ensures multiset(Candidates(contacts, "")) == multiset(contacts)
    ensures MatchCount(contacts, "") == |contacts|
  {
    FilterAll(contacts, c => MatchesQuery("", c));
  }

  /** Row `o` of page `p` is the projection of candidate `Offset(p, pageSize) + o`, when that candidate exists. */
  lemma RowAt(
    contacts: seq<Contact>, tags: seq<Tag>, links: set<Link>,
    q: string, pageSize: nat, p: nat, o: nat)
    requires o < pageSize && Offset(p, pageSize) + o < MatchCount(contacts, q)
    ensures o < |ListContacts(contacts, tags, links, q, p, pageSize).contacts|
    ensures ListContacts(contacts, tags, links, q, p, pageSize).contacts[o]
         == ToRow(Candidates(contacts, q)[Offset(p, pageSize) + o], tags, links)
  {
    RowIsCandidate(contacts, tags, links, q, p, pageSize, o);
  }

  /**
   * For a positive page size every matching contact is listed: the `n`-th match, newest
   * first, is on page `n / pageSize`, which is below the page count. No other page's row
   * range holds it (`Paging.PageOfRowUnique`).
   */
  lemma EveryMatchOnOnePage(
    contacts: seq<Contact>, tags: seq<Tag>, links: set<Link>,
    q: string, pageSize: nat, n: nat)
    requires pageSize > 0 && n < |Candidates(contacts, q)|
    ensures PageOf(n, pageSize) < CeilDiv(MatchCount(contacts, q), pageSize)
    ensures ToRow(Candidates(contacts, q)[n], tags, links)
         in ListContacts(contacts, tags, links, q, PageOf(n, pageSize), pageSize).contacts
  {
    var p, o := PageOf(n, pageSize), n % pageSize;
    var count := MatchCount(contacts, q);
    assert n < count;
    DivMod(n, pageSize);
    var start := Offset(p, pageSize);
    assert start + o == n;
    RowAt(contacts, tags, links, q, pageSize, p, o);
    var rows := ListContacts(contacts, tags, links, q, p, pageSize).contacts;
    assert rows[o] == ToRow(Candidates(contacts, q)[n], tags, links);
    PageBelowCount(n, pageSize, count);
  }
}
