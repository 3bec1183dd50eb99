/**
 * The tag reads: `getTags` (every tag with its number of contacts, newest first) and
 * `getTagsWithLimitAndOffset` (the slug filter and offset pagination).
 */
module TagQueries {
  import opened Wrappers
  import opened Text
  import opened Seqs
  import opened Paging
  import opened Records

  /** A tag as `getTags` returns it: its own fields plus the derived `count`. */
  datatype CountedTag = CountedTag(id: Id, slug: string, color: string, count: nat, createdAt: int)

  /** The paginated payload `{ tags, pageCount }`. */
  datatype TagPage = TagPage(tags: seq<Tag>, pageCount: Option<nat>)

  function TagCreatedAt(t: Tag): int { t.createdAt }

  /** The contacts joined to `tagId`: the row set from which `tag.contacts.length` is read. */
  function JoinedContactIds(links: set<Link>, tagId: Id): set<Id> {
    set l | l in links && l.tagId == tagId :: l.contactId
  }

  /** One tag with `count: tag.contacts.length`. */
  function WithCount(t: Tag, contacts: seq<Contact>, links: set<Link>): (r: CountedTag)
    ensures r.id == t.id && r.slug == t.slug && r.color == t.color && r.createdAt == t.createdAt
  {
    CountedTag(t.id, t.slug, t.color, |ContactsOfTag(contacts, links, t.id)|, t.createdAt)
  }

  /** `tagsRow.map(...)`: each tag of `ordered` with its count, in the same order. */
  function CountEach(ordered: seq<Tag>, contacts: seq<Contact>, links: set<Link>): (r: seq<CountedTag>)
    ensures |r| == |ordered| && forall k :: 0 <= k < |r| ==> r[k] == WithCount(ordered[k], contacts, links)
  {
    if ordered == [] then [] else [WithCount(ordered[0], contacts, links)] + CountEach(ordered[1..], contacts, links)
  }

  /** Counting keeps the newest-first order of the tags. */
  lemma CountEachKeepsOrder(ordered: seq<Tag>, contacts: seq<Contact>, links: set<Link>)
    requires NewestFirst(ordered, TagCreatedAt)
    ensures forall k, l :: 0 <= k < l < |CountEach(ordered, contacts, links)| ==>
      CountEach(ordered, contacts, links)[k].createdAt >= CountEach(ordered, contacts, links)[l].createdAt
  {
    var r := CountEach(ordered, contacts, links);
    forall k, l | 0 <= k < l < |r| ensures r[k].createdAt >= r[l].createdAt {
      assert TagCreatedAt(ordered[k]) >= TagCreatedAt(ordered[l]);
    }
  }

  /** Counting a reordering of `tags` yields exactly one counted entry per tag. */
  lemma CountEachCoversTags(tags: seq<Tag>, ordered: seq<Tag>, contacts: seq<Contact>, links: set<Link>)
    requires forall k :: 0 <= k < |ordered| ==> ordered[k] in tags
    requires forall i :: 0 <= i < |tags| ==> tags[i] in ordered
    ensures forall k :: 0 <= k < |CountEach(ordered, contacts, links)| ==>
      exists t :: t in tags && CountEach(ordered, contacts, links)[k] == WithCount(t, contacts, links)
    ensures forall t :: t in tags ==> WithCount(t, contacts, links) in CountEach(ordered, contacts, links)
  {
    var r := CountEach(ordered, contacts, links);
    forall t | t in tags ensures WithCount(t, contacts, links) in r {
      var k :| 0 <= k < |ordered| && ordered[k] == t;
      assert r[k] == WithCount(t, contacts, links);
    }
    forall k | 0 <= k < |r| ensures exists t :: t in tags && r[k] == WithCount(t, contacts, links) {
      assert ordered[k] in tags;
    }
  }

  /** Counting a tag in front of a list puts its counted entry in front. */
  lemma CountEachCons(t: Tag, s: seq<Tag>, contacts: seq<Contact>, links: set<Link>)
    ensures multiset(CountEach([t] + s, contacts, links)) == multiset{WithCount(t, contacts, links)} + multiset(CountEach(s, contacts, links))
  {
    assert ([t] + s)[1..] == s;
  }

  /** Counting after inserting one tag adds exactly that tag's counted entry. */
  lemma {:induction false} CountEachInsert(x: Tag, s: seq<Tag>, contacts: seq<Contact>, links: set<Link>)
    requires NewestFirst(s, TagCreatedAt)
    ensures multiset(CountEach(Insert(x, s, TagCreatedAt), contacts, links))
         == multiset{WithCount(x, contacts, links)} + multiset(CountEach(s, contacts, links))
  {
    if s == [] || TagCreatedAt(x) >= TagCreatedAt(s[0]) {
      CountEachCons(x, s, contacts, links);
      assert s == [] ==> [x] + s == [x];
    } else {
      InsertBehindHead(x, s, TagCreatedAt);
      CountEachInsert(x, s[1..], contacts, links);
      CountEachInsertBehind(x, s, Insert(x, s[1..], TagCreatedAt), contacts, links);
    }
  }

  /** The step of `CountEachInsert` where the new tag goes behind the head. */
  lemma CountEachInsertBehind(x: Tag, s: seq<Tag>, rest: seq<Tag>, contacts: seq<Contact>, links: set<Link>)
    requires s != []
    requires multiset(CountEach(rest, contacts, links))
          == multiset{WithCount(x, contacts, links)} + multiset(CountEach(s[1..], contacts, links))
    ensures multiset(CountEach([s[0]] + rest, contacts, links))
         == multiset{WithCount(x, contacts, links)} + multiset(CountEach(s, contacts, links))
  {
    var head := multiset{WithCount(s[0], contacts, links)};
    var added := multiset{WithCount(x, contacts, links)};
    var tail := multiset(CountEach(s[1..], contacts, links));
    CountEachCons(s[0], rest, contacts, links);
    CountEachCons(s[0], s[1..], contacts, links);
    assert [s[0]] + s[1..] == s;
    assert head + (added + tail) == added + (head + tail);
  }

  /** Counting the sorted tags gives the same entries, as often each, as counting the table in its own order. */
  lemma {:induction false} CountEachSorted(s: seq<Tag>, contacts: seq<Contact>, links: set<Link>)
    ensures multiset(CountEach(SortNewestFirst(s, TagCreatedAt), contacts, links)) == multiset(CountEach(s, contacts, links))
  {
    if s != [] {
      CountEachSorted(s[1..], contacts, links);
      CountEachInsert(s[0], SortNewestFirst(s[1..], TagCreatedAt), contacts, links);
      assert CountEach(s, contacts, links) == [WithCount(s[0], contacts, links)] + CountEach(s[1..], contacts, links);
    }
  }

  /** `getTags()`: every tag, newest first, each with its contact count. */
  function GetTags(contacts: seq<Contact>, tags: seq<Tag>, links: set<Link>): (r: seq<CountedTag>)
    ensures |r| == |tags|
    ensures forall k :: 0 <= k < |r| ==> exists t :: t in tags && r[k] == WithCount(t, contacts, links)
    ensures forall t :: t in tags ==> WithCount(t, contacts, links) in r
    ensures forall k, l :: 0 <= k < l < |r| ==> r[k].createdAt >= r[l].createdAt
    ensures multiset(r) == multiset(CountEach(tags, contacts, links))
  {
    var ordered := SortNewestFirst(tags, TagCreatedAt);
    SortKeepsElements(tags, TagCreatedAt);
    CountEachSorted(tags, contacts, links);
    CountEachKeepsOrder(ordered, contacts, links);
    CountEachCoversTags(tags, ordered, contacts, links);
    CountEach(ordered, contacts, links)
  }

  /**
   * In a consistent store a tag's `count` is the number of contacts joined to it: the
   * number of distinct contact ids among the join rows that reference the tag.
   */
  lemma CountIsJoinCount(contacts: seq<Contact>, tags: seq<Tag>, links: set<Link>, nextId: Id, t: Tag)
    requires Consistent(contacts, tags, links, nextId)
    ensures WithCount(t, contacts, links).count == |JoinedContactIds(links, t.id)|
  {
    var joined := ContactsOfTag(contacts, links, t.id);
    var ids := IdsOf(joined);
    JoinedIdsDistinct(contacts, links, t.id);
    DistinctCardinality(ids);
    JoinedIdsAreJoinRows(contacts, tags, links, nextId, t.id);
    assert WithCount(t, contacts, links).count == |joined| == |ids|;
  }

  function IdsOf(cs: seq<Contact>): (ids: seq<Id>)
    ensures |ids| == |cs| && forall k :: 0 <= k < |cs| ==> ids[k] == cs[k].id
  {
    seq(|cs|, k requires 0 <= k < |cs| => cs[k].id)
  }

  /** Contact ids are unique, so the contacts joined to a tag have pairwise different ids. */
  lemma JoinedIdsDistinct(contacts: seq<Contact>, links: set<Link>, tagId: Id)
    requires forall i, j :: 0 <= i < j < |contacts| ==> contacts[i].id != contacts[j].id
    ensures Distinct(IdsOf(ContactsOfTag(contacts, links, tagId)))
  {
    var p := (c: Contact) => Link(c.id, tagId) in links;
    if contacts != [] {
      JoinedIdsDistinct(contacts[1..], links, tagId);
      var rest := ContactsOfTag(contacts[1..], links, tagId);
      forall k | 0 <= k < |rest| ensures rest[k].id != contacts[0].id {
        var j :| 0 <= j < |contacts[1..]| && contacts[1..][j] == rest[k];
        assert contacts[j + 1] == rest[k];
      }
    }
  }

  /** Every join row of a tag names a contact of the table, so the joined ids are exactly the join rows' contact ids. */
  lemma JoinedIdsAreJoinRows(contacts: seq<Contact>, tags: seq<Tag>, links: set<Link>, nextId: Id, tagId: Id)
    requires Consistent(contacts, tags, links, nextId)
    ensures Elements(IdsOf(ContactsOfTag(contacts, links, tagId))) == JoinedContactIds(links, tagId)
  {
    var joined := ContactsOfTag(contacts, links, tagId);
    var ids := IdsOf(joined);
    forall id | id in JoinedContactIds(links, tagId) ensures id in ids {
      var l :| l in links && l.tagId == tagId && l.contactId == id;
      var a :| 0 <= a < |contacts| && contacts[a].id == id;
      assert contacts[a] in joined;
      var k :| 0 <= k < |joined| && joined[k] == contacts[a];
      assert ids[k] == id;
    }
    forall id | id in ids ensures id in JoinedContactIds(links, tagId) {
      var k :| 0 <= k < |ids| && ids[k] == id;
      assert Link(joined[k].id, tagId) in links;
    }
  }

  /** The slug filter: none for an empty query, else `q` inside the slug. */
  predicate SlugMatches(q: string, t: Tag) {
    |q| == 0 || Contains(t.slug, q)
  }

  /** The matching tags newest first: what `skip`/`take` cut pages from. */
  function TagCandidates(tags: seq<Tag>, q: string): (r: seq<Tag>)
    ensures NewestFirst(r, TagCreatedAt)
    ensures multiset(r) == multiset(Filter(tags, t => SlugMatches(q, t)))
    ensures |r| == TagMatchCount(tags, q)
  {
    SortNewestFirst(Filter(tags, t => SlugMatches(q, t)), TagCreatedAt)
  }

  /** The `count` query, run with the same slug filter as the page query. */
  function TagMatchCount(tags: seq<Tag>, q: string): nat {
    |Filter(tags, t => SlugMatches(q, t))|
  }

  /** `getTagsWithLimitAndOffset(q, pageIndex, pageSize)`. */
  function ListTags(tags: seq<Tag>, q: string, pageIndex: nat, pageSize: nat): (r: TagPage)
    ensures |r.tags| <= pageSize
    ensures Offset(pageIndex, pageSize) >= TagMatchCount(tags, q) ==> r.tags == []
    ensures Offset(pageIndex, pageSize) < TagMatchCount(tags, q) ==>
      |r.tags| == if TagMatchCount(tags, q) - Offset(pageIndex, pageSize) < pageSize
                  then TagMatchCount(tags, q) - Offset(pageIndex, pageSize) else pageSize
    ensures forall k :: 0 <= k < |r.tags| ==> r.tags[k] in tags && SlugMatches(q, r.tags[k])
    ensures NewestFirst(r.tags, TagCreatedAt)
    ensures r.pageCount.None? <==> pageSize == 0
    ensures r.pageCount.Some? ==>
      r.pageCount.value * pageSize >= TagMatchCount(tags, q)
      && (r.pageCount.value == 0 || (r.pageCount.value - 1) * pageSize < TagMatchCount(tags, q))
  {
    var ordered := TagCandidates(tags, q);
    var page := Slice(ordered, Offset(pageIndex, pageSize), pageSize);
    forall k | 0 <= k < |page| ensures page[k] in tags && SlugMatches(q, page[k]) {
      var matching := Filter(tags, t => SlugMatches(q, t));
      assert page[k] in multiset(matching) by {
        assert page[k] == ordered[Offset(pageIndex, pageSize) + k];
        assert page[k] in multiset(ordered);
      }
      assert page[k] in matching;
    }
    TagPage(page, PageCount(TagMatchCount(tags, q), pageSize))
  }

  /** An empty query filters nothing: every tag is a candidate. */
  lemma EmptyQueryListsEveryTag(tags: seq<Tag>)
    ensures multiset(TagCandidates(tags, "")) == multiset(tags)
    ensures TagMatchCount(tags, "") == |tags|
  {
    FilterAll(tags, t => SlugMatches("", t));
  }

  /** Concatenating pages `0 .. pageCount-1` gives every matching tag exactly once, newest first. */
  lemma TagPagesCoverMatches(tags: seq<Tag>, q: string, pageSize: nat)
    requires pageSize > 0
    ensures ListTags(tags, q, 0, pageSize).pageCount == Some(CeilDiv(TagMatchCount(tags, q), pageSize))
    ensures Pages(TagCandidates(tags, q), pageSize, CeilDiv(TagMatchCount(tags, q), pageSize))
         == TagCandidates(tags, q)
    ensures forall p: nat ::
      ListTags(tags, q, p, pageSize).tags == Slice(TagCandidates(tags, q), Offset(p, pageSize), pageSize)
  {
    PagesCoverAll(TagCandidates(tags, q), pageSize);
  }
}
