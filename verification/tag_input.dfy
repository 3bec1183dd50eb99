/**
 * The tag picker of the contact forms. It holds the selected slugs as a list; choosing
 * an option removes its slug when selected and appends it otherwise. The trigger button
 * previews the selection as one badge per slug, or as a single count badge once the
 * selection is longer than the preview amount.
 */
module TagInput {
  import opened Seqs

  /** `handleAddTag`: the selection with `tag` appended. */
  function AddTag(value: seq<string>, tag: string): (r: seq<string>)
    ensures |r| == |value| + 1 && r[|value|] == tag
    ensures forall i :: 0 <= i < |value| ==> r[i] == value[i]
  {
    value + [tag]
  }

  /**
   * `handleRemoveTag`: the selection without any occurrence of `tag`; the other tags keep
   * their order and their repeats, as `value.filter(item => item !== tag)`.
   */
  function RemoveTag(value: seq<string>, tag: string): (r: seq<string>)
    ensures r == Filter(value, x => x != tag)
    ensures tag !in r
    ensures forall x :: x in r <==> x in value && x != tag
    ensures |r| <= |value|
  {
    if value == [] then []
    else if value[0] == tag then RemoveTag(value[1..], tag)
    else [value[0]] + RemoveTag(value[1..], tag)
  }

  /** Choosing an option: `isSelected ? handleRemoveTag : handleAddTag`. */
  function Select(value: seq<string>, slug: string): seq<string> {
    if slug in value then RemoveTag(value, slug) else AddTag(value, slug)
  }

  /** Removing a tag that is not selected changes nothing. */
  lemma RemoveAbsent(value: seq<string>, tag: string)
    requires tag !in value
    ensures RemoveTag(value, tag) == value
  {
    FilterAll(value, x => x != tag);
  }

  /** Removing after adding the same tag is removing it from the original selection. */
  lemma {:induction false} RemoveAfterAdd(value: seq<string>, tag: string)
    ensures RemoveTag(AddTag(value, tag), tag) == RemoveTag(value, tag)
  {
    if value == [] {
      assert AddTag(value, tag) == [tag];
    } else {
      var a := AddTag(value, tag);
      assert a[0] == value[0] && a[1..] == AddTag(value[1..], tag);
      RemoveAfterAdd(value[1..], tag);
    }
  }

  /** Removing keeps a duplicate-free selection duplicate-free. */
  lemma RemoveKeepsDistinct(value: seq<string>, tag: string)
    requires Distinct(value)
    ensures Distinct(RemoveTag(value, tag))
  {
    FilterDistinct(value, x => x != tag);
  }

  /** A slug is selected after choosing it exactly when it was not selected before; nothing else changes membership. */
  lemma SelectFlips(value: seq<string>, slug: string)
    ensures forall x :: x in Select(value, slug) <==> (if x == slug then slug !in value else x in value)
  {
  }

  /** Starting from a duplicate-free selection, choosing any option keeps it duplicate-free. */
  lemma SelectKeepsDistinct(value: seq<string>, slug: string)
    requires Distinct(value)
    ensures Distinct(Select(value, slug))
  {
    if slug in value {
      RemoveKeepsDistinct(value, slug);
    } else {
      var r := AddTag(value, slug);
      forall i, j | 0 <= i < j < |r| ensures r[i] != r[j] {
        if j == |value| {
          assert r[i] == value[i];
        }
      }
    }
  }

  /**
   * Choosing the same option twice restores the selection, except that a slug that was
   * selected comes back at the end of the list.
   */
  lemma SelectTwice(value: seq<string>, slug: string)
    ensures slug !in value ==> Select(Select(value, slug), slug) == value
    ensures slug in value ==> Select(Select(value, slug), slug) == RemoveTag(value, slug) + [slug]
  {
    if slug !in value {
      assert slug in AddTag(value, slug);
      RemoveAfterAdd(value, slug);
      RemoveAbsent(value, slug);
    }
  }

  /** What the trigger button shows for the selection. */
  datatype Preview =
    | NoBadges                       // nothing selected
    | CountBadge(count: nat)         // "<n> selecionada"
    | TagBadges(tags: seq<string>)   // one badge per selected slug

  /** `previewTagsAmount = 5`. */
  const DefaultPreviewAmount := 5

  /** The preview for a selection and a preview amount. */
  function PreviewOf(value: seq<string>, amount: int): (p: Preview)
    ensures p.NoBadges? <==> value == []
    ensures p.CountBadge? <==> value != [] && |value| > amount
    ensures p.CountBadge? ==> p.count == |value|
    ensures p.TagBadges? ==> p.tags == value
  {
    if |value| == 0 then NoBadges
    else if |value| > amount then CountBadge(|value|)
    else TagBadges(value)
  }

  /** How many badges a preview draws. */
  function BadgesDrawn(p: Preview): nat {
    match p
    case NoBadges => 0
    case CountBadge(_) => 1
    case TagBadges(tags) => |tags|
  }

  /**
   * A non-empty selection always draws at least one badge and never more than the preview
   * amount (or one badge when the amount is below one); with the default amount, at most five.
   */
  lemma PreviewIsBounded(value: seq<string>, amount: int)
    ensures value != [] ==> BadgesDrawn(PreviewOf(value, amount)) >= 1
    ensures BadgesDrawn(PreviewOf(value, amount)) <= (if amount >= 1 then amount else 1)
    ensures BadgesDrawn(PreviewOf(value, DefaultPreviewAmount)) <= 5
  {
  }
}
