/** Character and substring helpers shared by the filters and validators. */
module Text {

  /** One character of the class `[a-zA-Z]`. */
  predicate IsAsciiLetter(c: char) {
    ('a' <= c <= 'z') || ('A' <= c <= 'Z')
  }

  /** `q` occurs in `s` starting at position `i`. */
  ghost predicate OccursAt(q: string, s: string, i: int) {
    0 <= i && i + |q| <= |s| && s[i..i + |q|] == q
  }

  /** The store's `contains` filter, taken as an exact (case-sensitive) substring test. */
  function Contains(s: string, q: string): (r: bool)
    ensures r <==> exists i :: OccursAt(q, s, i)
    decreases |s|
  {
    if q <= s then
      assert OccursAt(q, s, 0);
      true
    else if |s| <= |q| then
      assert forall i :: !OccursAt(q, s, i);
      false
    else
      var r := Contains(s[1..], q);
      assert r ==> exists i :: OccursAt(q, s, i) by {
        if r {
          var i :| OccursAt(q, s[1..], i);
          assert s[1..][i..i + |q|] == s[i + 1..i + 1 + |q|];
          assert OccursAt(q, s, i + 1);
        }
      }
      assert (exists i :: OccursAt(q, s, i)) ==> r by {
        if exists i :: OccursAt(q, s, i) {
          var i :| OccursAt(q, s, i);
          if i == 0 {
            assert false;
          }
          assert s[1..][i - 1..i - 1 + |q|] == s[i..i + |q|];
          assert OccursAt(q, s[1..], i - 1);
        }
      }
      r
  }
}
