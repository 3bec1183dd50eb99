/**
 * `URLSearchParams`: an ordered list of name/value pairs in which a name may repeat.
 * `get` reads the first value of a name, `delete` removes every pair of the name, and
 * `set` overwrites the first pair of the name in place and drops the others, or appends
 * a pair when the name is absent.
 */
module SearchParams {
  import opened Wrappers

  datatype Param = Param(key: string, value: string)

  /** `get(key)`: the value of the first pair named `key`, or null. */
  function Get(ps: seq<Param>, key: string): (r: Option<string>)
    ensures r.None? <==> forall i :: 0 <= i < |ps| ==> ps[i].key != key
    ensures r.Some? ==>
      exists i :: 0 <= i < |ps| && ps[i] == Param(key, r.value) && forall j :: 0 <= j < i ==> ps[j].key != key
  {
    if ps == [] then None
    else if ps[0].key == key then Some(ps[0].value)
    else
      var r := Get(ps[1..], key);
      assert r.Some? ==> exists i :: 0 <= i < |ps| && ps[i] == Param(key, r.value) && forall j :: 0 <= j < i ==> ps[j].key != key by {
        if r.Some? {
          var i :| 0 <= i < |ps[1..]| && ps[1..][i] == Param(key, r.value) && forall j :: 0 <= j < i ==> ps[1..][j].key != key;
          assert ps[i + 1] == Param(key, r.value);
          assert forall j :: 1 <= j < i + 1 ==> ps[j] == ps[1..][j - 1];
        }
      }
      r
  }

  /** The pairs not named `key`, in order: the list after `delete(key)`. */
  function Without(ps: seq<Param>, key: string): (r: seq<Param>)
    ensures forall i :: 0 <= i < |r| ==> r[i].key != key
    ensures |r| <= |ps|
  {
    if ps == [] then []
    else if ps[0].key == key then Without(ps[1..], key)
    else [ps[0]] + Without(ps[1..], key)
  }

  /**
   * The list after `set(key, value)`: the first pair named `key` takes the new value where
   * it stands and later pairs of that name are dropped; with no such pair, one is appended.
   */
  function WithValue(ps: seq<Param>, key: string, value: string): seq<Param> {
    if ps == [] then [Param(key, value)]
    else if ps[0].key == key then [Param(key, value)] + Without(ps[1..], key)
    else [ps[0]] + WithValue(ps[1..], key, value)
  }

  /**
   * What `set(key, value)` still produces from the unread pairs `rest`: once a pair named
   * `key` has been read the remaining ones are dropped, before that the first is replaced.
   */
  function SetRest(rest: seq<Param>, found: bool, key: string, value: string): seq<Param> {
    if found then Without(rest, key) else WithValue(rest, key, value)
  }

  /** What `set(key, value)` produces for the pair `x` it reads. */
  function SetEmits(x: Param, found: bool, key: string, value: string): seq<Param> {
    if x.key != key then [x]
    else if found then []
    else [Param(key, value)]
  }

  /** Reading the pair at `i`: it contributes `SetEmits`, and the name counts as found once it matches. */
  lemma SetRestStep(ps: seq<Param>, i: nat, out: seq<Param>, found: bool, key: string, value: string)
    requires i < |ps|
    ensures out + SetRest(ps[i..], found, key, value)
         == (out + SetEmits(ps[i], found, key, value)) + SetRest(ps[i + 1..], found || ps[i].key == key, key, value)
  {
    var xs := ps[i..];
    assert xs[0] == ps[i] && xs[1..] == ps[i + 1..];
  }

  /** How many pairs are named `key`. */
  function Occurrences(ps: seq<Param>, key: string): (n: nat)
    ensures n <= |ps|
    ensures n == 0 <==> forall j :: 0 <= j < |ps| ==> ps[j].key != key
  {
    if ps == [] then 0
    else (if ps[0].key == key then 1 else 0) + Occurrences(ps[1..], key)
  }

  lemma {:induction false} WithoutAppend(a: seq<Param>, b: seq<Param>, key: string)
    ensures Without(a + b, key) == Without(a, key) + Without(b, key)
  {
    if a == [] {
      assert a + b == b;
    } else {
      var ab := a + b;
      assert ab[0] == a[0];
      assert ab[1..] == a[1..] + b;
      WithoutAppend(a[1..], b, key);
      if a[0].key == key {
        assert Without(ab, key) == Without(a[1..] + b, key);
        assert Without(a, key) == Without(a[1..], key);
      } else {
        assert Without(ab, key) == [a[0]] + Without(a[1..] + b, key);
        assert Without(a, key) == [a[0]] + Without(a[1..], key);
      }
    }
  }

  lemma {:induction false} WithoutAbsent(ps: seq<Param>, key: string)
    requires forall j :: 0 <= j < |ps| ==> ps[j].key != key
    ensures Without(ps, key) == ps
  {
    if ps != [] {
      WithoutAbsent(ps[1..], key);
    }
  }

  /** Deleting a name twice is deleting it once. */
  lemma WithoutIdempotent(ps: seq<Param>, key: string)
    ensures Without(Without(ps, key), key) == Without(ps, key)
  {
    WithoutAbsent(Without(ps, key), key);
  }

  /** Deleting two names in either order gives the same list. */
  lemma {:induction false} WithoutCommutes(ps: seq<Param>, k1: string, k2: string)
    ensures Without(Without(ps, k1), k2) == Without(Without(ps, k2), k1)
  {
    if ps != [] {
      WithoutCommutes(ps[1..], k1, k2);
    }
  }

  /** After `set(key, value)`, `get(key)` is `value`. */
  lemma {:induction false} SetThenGet(ps: seq<Param>, key: string, value: string)
    ensures Get(WithValue(ps, key, value), key) == Some(value)
  {
    if ps != [] && ps[0].key != key {
      SetThenGet(ps[1..], key, value);
    }
  }

  /** `set(key, value)` changes no pair of another name, nor their order. */
  lemma {:induction false} SetKeepsOthers(ps: seq<Param>, key: string, value: string)
    ensures Without(WithValue(ps, key, value), key) == Without(ps, key)
  {
    var kv := Param(key, value);
    if ps == [] {
      assert Without([kv], key) == Without([kv][1..], key);
    } else if ps[0].key == key {
      var r := [kv] + Without(ps[1..], key);
      assert r[0] == kv && r[1..] == Without(ps[1..], key);
      WithoutIdempotent(ps[1..], key);
    } else {
      var r := [ps[0]] + WithValue(ps[1..], key, value);
      assert r[0] == ps[0] && r[1..] == WithValue(ps[1..], key, value);
      SetKeepsOthers(ps[1..], key, value);
    }
  }

  /** After `set(key, value)` the name occurs exactly once. */
  lemma {:induction false} SetLeavesOnePair(ps: seq<Param>, key: string, value: string)
    ensures Occurrences(WithValue(ps, key, value), key) == 1
  {
    var kv := Param(key, value);
    if ps == [] {
      assert Occurrences([kv], key) == 1 + Occurrences([kv][1..], key);
    } else if ps[0].key == key {
      var r := [kv] + Without(ps[1..], key);
      assert r[0] == kv && r[1..] == Without(ps[1..], key);
    } else {
      var r := [ps[0]] + WithValue(ps[1..], key, value);
      assert r[0] == ps[0] && r[1..] == WithValue(ps[1..], key, value);
      SetLeavesOnePair(ps[1..], key, value);
    }
  }

  /** Setting the same value twice is setting it once. */
  lemma {:induction false} SetIdempotent(ps: seq<Param>, key: string, value: string)
    ensures WithValue(WithValue(ps, key, value), key, value) == WithValue(ps, key, value)
  {
    var kv := Param(key, value);
    if ps == [] {
      assert Without([kv][1..], key) == [];
    } else if ps[0].key == key {
      var r := [kv] + Without(ps[1..], key);
      assert r[0] == kv && r[1..] == Without(ps[1..], key);
      WithoutIdempotent(ps[1..], key);
    } else {
      var r := [ps[0]] + WithValue(ps[1..], key, value);
      assert r[0] == ps[0] && r[1..] == WithValue(ps[1..], key, value);
      SetIdempotent(ps[1..], key, value);
    }
  }

  /** Deleting one name and setting another can be done in either order. */
  lemma {:induction false} DeleteSetCommute(ps: seq<Param>, k: string, key: string, value: string)
    requires k != key
    ensures Without(WithValue(ps, key, value), k) == WithValue(Without(ps, k), key, value)
  {
    var kv := Param(key, value);
    if ps == [] {
      assert Without([kv], k) == [kv] + Without([kv][1..], k);
    } else if ps[0].key == key {
      var r := [kv] + Without(ps[1..], key);
      assert r[0] == kv && r[1..] == Without(ps[1..], key);
      WithoutCommutes(ps[1..], k, key);
    } else {
      var r := [ps[0]] + WithValue(ps[1..], key, value);
      assert r[0] == ps[0] && r[1..] == WithValue(ps[1..], key, value);
      DeleteSetCommute(ps[1..], k, key, value);
      if ps[0].key != k {
        var w := [ps[0]] + Without(ps[1..], k);
        assert w[0] == ps[0] && w[1..] == Without(ps[1..], k);
      }
    }
  }

  /** Setting a name to the value it alone holds changes nothing. */
  lemma {:induction false} SetFixed(ps: seq<Param>, key: string, value: string)
    requires Get(ps, key) == Some(value) && Occurrences(ps, key) == 1
    ensures WithValue(ps, key, value) == ps
  {
    if ps[0].key == key {
      WithoutAbsent(ps[1..], key);
      assert [ps[0]] + ps[1..] == ps;
    } else {
      SetFixed(ps[1..], key, value);
      assert [ps[0]] + ps[1..] == ps;
    }
  }

  /** Deleting one name keeps the number of pairs of any other name. */
  lemma {:induction false} OccurrencesAfterOtherDelete(ps: seq<Param>, key: string, k: string)
    requires k != key
    ensures Occurrences(Without(ps, key), k) == Occurrences(ps, k)
  {
    if ps != [] {
      OccurrencesAfterOtherDelete(ps[1..], key, k);
      if ps[0].key != key {
        var r := [ps[0]] + Without(ps[1..], key);
        assert r[0] == ps[0] && r[1..] == Without(ps[1..], key);
      }
    }
  }

  /** Setting one name keeps the number of pairs of any other name. */
  lemma {:induction false} OccurrencesAfterOtherSet(ps: seq<Param>, key: string, value: string, k: string)
    requires k != key
    ensures Occurrences(WithValue(ps, key, value), k) == Occurrences(ps, k)
  {
    var kv := Param(key, value);
    if ps == [] {
      assert Occurrences([kv], k) == 0 + Occurrences([kv][1..], k);
    } else if ps[0].key == key {
      var r := [kv] + Without(ps[1..], key);
      assert r[0] == kv && r[1..] == Without(ps[1..], key);
      OccurrencesAfterOtherDelete(ps[1..], key, k);
    } else {
      var r := [ps[0]] + WithValue(ps[1..], key, value);
      assert r[0] == ps[0] && r[1..] == WithValue(ps[1..], key, value);
      OccurrencesAfterOtherSet(ps[1..], key, value, k);
    }
  }

  /** After `delete(key)`, `get(key)` is null. */
  lemma DeleteThenGet(ps: seq<Param>, key: string)
    ensures Get(Without(ps, key), key) == None
  {
  }

  /** Deleting one name leaves the first value of every other name as it was. */
  lemma {:induction false} GetOtherAfterDelete(ps: seq<Param>, key: string, other: string)
    requires other != key
    ensures Get(Without(ps, key), other) == Get(ps, other)
  {
    if ps != [] {
      GetOtherAfterDelete(ps[1..], key, other);
    }
  }

  /** Setting one name leaves the first value of every other name as it was. */
  lemma GetOtherAfterSet(ps: seq<Param>, key: string, value: string, other: string)
    requires other != key
    ensures Get(WithValue(ps, key, value), other) == Get(ps, other)
  {
    GetOtherAfterDelete(WithValue(ps, key, value), key, other);
    SetKeepsOthers(ps, key, value);
    GetOtherAfterDelete(ps, key, other);
  }

  /** A mutable `URLSearchParams` object. */
  class UrlSearchParams {
    var entries: seq<Param>

    /** `new URLSearchParams(init)`: a copy of the pairs. */
    constructor (init: seq<Param>)
      ensures entries == init
    {
      entries := init;
    }

    /** `get(key)`: the value of the first pair named `key`, or null. */
    function GetParam(key: string): (r: Option<string>)
      reads this
      ensures r.None? <==> forall i :: 0 <= i < |entries| ==> entries[i].key != key
    {
      Get(entries, key)
    }

    /** `delete(key)`: drops every pair named `key`, keeping the order of the rest. */
    method Delete(key: string)
      modifies this
      ensures entries == Without(old(entries), key)
    {
      var ps := entries;
      var kept: seq<Param> := [];
      var i := 0;
      while i < |ps|
        invariant 0 <= i <= |ps|
        invariant kept == Without(ps[..i], key)
      {
        assert ps[..i + 1] == ps[..i] + [ps[i]];
        WithoutAppend(ps[..i], [ps[i]], key);
        if ps[i].key != key {
          kept := kept + [ps[i]];
        }
        i := i + 1;
      }
      assert ps[..i] == ps;
      entries := kept;
    }

    /**
     * `set(key, value)`: overwrites the first pair named `key` where it stands and drops
     * the later ones, or appends the pair when there is none.
     */
    method Set(key: string, value: string)
      modifies this
      ensures entries == WithValue(old(entries), key, value)
    {
      var ps := entries;
      var out: seq<Param> := [];
      var found := false;
      var i := 0;
      assert ps[0..] == ps;
      while i < |ps|
        invariant 0 <= i <= |ps|
        invariant out + SetRest(ps[i..], found, key, value) == WithValue(ps, key, value)
      {
        SetRestStep(ps, i, out, found, key, value);
        var emitted := SetEmits(ps[i], found, key, value);
        out := out + emitted;
        found := found || ps[i].key == key;
        i := i + 1;
      }
      out := out + SetRest([], found, key, value);
      entries := out;
    }
  }
}
