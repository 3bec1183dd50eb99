/**
 * The new-tag form schema: the slug must match `^[a-zA-Z]+(-[a-zA-Z]+)*$` and the colour
 * must have at least 4 characters. Also the form's default values.
 */
module TagForm {
  import opened Text

  /** The values the form holds. */
  datatype TagFormValues = TagFormValues(slug: string, color: string)

  /** The form's `defaultValues`. */
  const Defaults := TagFormValues("", "#E2E2E2")

  /**
   * The slug pattern as a matcher: `inWord` holds when the previous character was a letter.
   * A letter may always follow; a hyphen only right after a letter; the input must end on a letter.
   */
  function MatchSlugFrom(s: string, inWord: bool): bool {
    if s == [] then inWord
    else if IsAsciiLetter(s[0]) then MatchSlugFrom(s[1..], true)
    else if s[0] == '-' && inWord then MatchSlugFrom(s[1..], false)
    else false
  }

  /** `.regex(/^[a-zA-Z]+(-[a-zA-Z]+)*$/)`. */
  predicate IsSlug(s: string) {
    MatchSlugFrom(s, false)
  }

  /** `.min(4)` on the colour. */
  predicate IsColor(c: string) {
    |c| >= 4
  }

  /** The whole form schema. */
  predicate ValidTagForm(v: TagFormValues) {
    IsSlug(v.slug) && IsColor(v.color)
  }

  /** A non-empty run of ASCII letters: one `[a-zA-Z]+`. */
  predicate IsWord(w: string) {
    |w| > 0 && forall i :: 0 <= i < |w| ==> IsAsciiLetter(w[i])
  }

  /** The words joined by single hyphens. */
  function JoinHyphen(ws: seq<string>): string
    requires |ws| > 0
  {
    if |ws| == 1 then ws[0] else ws[0] + "-" + JoinHyphen(ws[1..])
  }

  /** The pieces between the hyphens of `s` (possibly empty pieces). */
  function SplitHyphen(s: string): (ws: seq<string>)
    ensures |ws| > 0
  {
    if s == [] then [[]]
    else
      var rest := SplitHyphen(s[1..]);
      if s[0] == '-' then [[]] + rest else [[s[0]] + rest[0]] + rest[1..]
  }

  /** Splitting at the hyphens and joining with hyphens gives the string back. */
  lemma {:induction false} JoinSplit(s: string)
    ensures JoinHyphen(SplitHyphen(s)) == s
  {
    if s != [] {
      var rest := SplitHyphen(s[1..]);
      JoinSplit(s[1..]);
      if s[0] == '-' {
        assert ([[]] + rest)[1..] == rest;
      } else {
        var ws := [[s[0]] + rest[0]] + rest[1..];
        if |rest| > 1 {
          assert ws[1..] == rest[1..];
          assert JoinHyphen(rest) == rest[0] + "-" + JoinHyphen(rest[1..]);
        }
      }
    }
  }

  /** The shape the slug pattern describes, written out character by character. */
  ghost predicate Shape(s: string, inWord: bool) {
    && (forall i :: 0 <= i < |s| ==> IsAsciiLetter(s[i]) || s[i] == '-')
    && (forall i :: 0 <= i < |s| - 1 ==> !(s[i] == '-' && s[i + 1] == '-'))
    && (s == [] ==> inWord)
    && (s != [] ==> IsAsciiLetter(s[|s| - 1]))
    && (s != [] && !inWord ==> IsAsciiLetter(s[0]))
  }

  lemma {:induction false} MatchIsShape(s: string, inWord: bool)
    ensures MatchSlugFrom(s, inWord) <==> Shape(s, inWord)
  {
    if s != [] {
      MatchIsShape(s[1..], IsAsciiLetter(s[0]));
      assert forall i :: 0 <= i < |s| - 1 ==> s[1..][i] == s[i + 1];
    }
  }

  /**
   * A slug is accepted exactly when it is non-empty, made only of ASCII letters and hyphens,
   * neither starts nor ends with a hyphen, and has no two hyphens in a row.
   */
  lemma SlugCharacterised(s: string)
    ensures IsSlug(s) <==>
      && |s| > 0
      && (forall i :: 0 <= i < |s| ==> IsAsciiLetter(s[i]) || s[i] == '-')
      && s[0] != '-' && s[|s| - 1] != '-'
      && (forall i :: 0 <= i < |s| - 1 ==> !(s[i] == '-' && s[i + 1] == '-'))
  {
    MatchIsShape(s, false);
  }

  /** A character that is neither an ASCII letter nor a hyphen (a digit, a space, ...) anywhere rejects the slug. */
  lemma ForeignCharacterRejected(s: string, i: nat)
    requires i < |s| && !IsAsciiLetter(s[i]) && s[i] != '-'
    ensures !IsSlug(s)
  {
    MatchIsShape(s, false);
  }

  /** Letters followed by more input: the matcher is then inside a word. */
  lemma {:induction false} MatchAfterWord(w: string, rest: string, inWord: bool)
    requires IsWord(w)
    ensures MatchSlugFrom(w + rest, inWord) == MatchSlugFrom(rest, true)
  {
    assert (w + rest)[1..] == w[1..] + rest;
    if |w| > 1 {
      MatchAfterWord(w[1..], rest, true);
    } else {
      assert w[1..] + rest == rest;
    }
  }

  /** Soundness: letter words joined by single hyphens always form an accepted slug. */
  lemma {:induction false} JoinedWordsAreSlug(ws: seq<string>)
    requires |ws| > 0 && forall i :: 0 <= i < |ws| ==> IsWord(ws[i])
    ensures IsSlug(JoinHyphen(ws))
  {
    JoinedWordsMatch(ws, false);
  }

  lemma {:induction false} JoinedWordsMatch(ws: seq<string>, inWord: bool)
    requires |ws| > 0 && forall i :: 0 <= i < |ws| ==> IsWord(ws[i])
    ensures MatchSlugFrom(JoinHyphen(ws), inWord)
  {
    if |ws| == 1 {
      MatchAfterWord(ws[0], [], inWord);
      assert ws[0] + [] == ws[0];
    } else {
      var tail := JoinHyphen(ws[1..]);
      assert ws[0] + "-" + tail == ws[0] + ("-" + tail);
      MatchAfterWord(ws[0], "-" + tail, inWord);
      assert ("-" + tail)[1..] == tail;
      JoinedWordsMatch(ws[1..], false);
    }
  }

  /** Completeness: every accepted slug splits at its hyphens into non-empty letter words. */
  lemma SlugSplitsIntoWords(s: string)
    requires IsSlug(s)
    ensures forall i :: 0 <= i < |SplitHyphen(s)| ==> IsWord(SplitHyphen(s)[i])
    ensures JoinHyphen(SplitHyphen(s)) == s
  {
    MatchedPieces(s, false);
    JoinSplit(s);
  }

  lemma {:induction false} MatchedPieces(s: string, inWord: bool)
    requires MatchSlugFrom(s, inWord)
    ensures forall i :: 0 <= i < |SplitHyphen(s)| ==>
      forall j :: 0 <= j < |SplitHyphen(s)[i]| ==> IsAsciiLetter(SplitHyphen(s)[i][j])
    ensures forall i :: 1 <= i < |SplitHyphen(s)| ==> |SplitHyphen(s)[i]| > 0
    ensures inWord || |SplitHyphen(s)[0]| > 0
  {
    if s != [] {
      var rest := SplitHyphen(s[1..]);
      MatchedPieces(s[1..], IsAsciiLetter(s[0]));
      if s[0] != '-' {
        var first := [s[0]] + rest[0];
        assert forall j :: 1 <= j < |first| ==> first[j] == rest[0][j - 1];
      }
    }
  }

  /** The form's defaults: the empty slug is rejected, the default colour accepted. */
  lemma DefaultsRejected()
    ensures !IsSlug(Defaults.slug)
    ensures IsColor(Defaults.color)
    ensures !ValidTagForm(Defaults)
  {
  }

  /** The two slugs the form shows as examples are accepted. */
  lemma ExampleSlugsAccepted()
    ensures IsSlug("familia") && IsSlug("amigos")
  {
    JoinedWordsAreSlug(["familia"]);
    JoinedWordsAreSlug(["amigos"]);
  }
}
