/**
 * Ordering and offset pagination shared by the contact and tag listings:
 * `orderBy: { createdAt: "desc" }`, `skip: pageIndex * pageSize`, `take: pageSize`
 * and `pageCount = Math.ceil(count / pageSize)`.
 */
module Paging {
  import opened Wrappers

  /** `s` is ordered newest first: the key never increases along the sequence. */
  ghost predicate NewestFirst<T>(s: seq<T>, key: T -> int) {
    forall i, j :: 0 <= i < j < |s| ==> key(s[i]) >= key(s[j])
  }

  /** Places `x` into a newest-first sequence, before the first element that is not newer than it. */
  function Insert<T>(x: T, s: seq<T>, key: T -> int): (r: seq<T>)
    requires NewestFirst(s, key)
    ensures NewestFirst(r, key)
    ensures multiset(r) == multiset(s) + multiset{x}
    ensures |r| == |s| + 1
    ensures forall i :: 0 <= i < |r| ==> r[i] == x || r[i] in s
  {
    if s == [] then [x]
    else if key(x) >= key(s[0]) then
      PrependNewest(x, s, key);
      [x] + s
    else
      assert NewestFirst(s[1..], key);
      var rest := Insert(x, s[1..], key);
      InsertedBelowHead(x, s, rest, key);
      PrependNewest(s[0], rest, key);
      assert s == [s[0]] + s[1..];
      [s[0]] + rest
  }

  /** An element older than the head is inserted into the tail, behind the head. */
  lemma InsertBehindHead<T>(x: T, s: seq<T>, key: T -> int)
    requires NewestFirst(s, key) && s != [] && key(x) < key(s[0])
    ensures NewestFirst(s[1..], key)
    ensures Insert(x, s, key) == [s[0]] + Insert(x, s[1..], key)
  {
  }

  /** Inserting an element older than the head into the tail keeps every element no newer than the head. */
  lemma InsertedBelowHead<T>(x: T, s: seq<T>, rest: seq<T>, key: T -> int)
    requires s != [] && NewestFirst(s, key) && key(x) < key(s[0])
    requires forall i :: 0 <= i < |rest| ==> rest[i] == x || rest[i] in s[1..]
    ensures forall i :: 0 <= i < |rest| ==> key(rest[i]) <= key(s[0])
  {
    forall i | 0 <= i < |rest| ensures key(rest[i]) <= key(s[0]) {
      if rest[i] != x {
        var k :| 0 <= k < |s[1..]| && s[1..][k] == rest[i];
        assert s[k + 1] == rest[i];
      }
    }
  }

  /** An element no older than every element of a newest-first sequence can go in front of it. */
  lemma PrependNewest<T>(y: T, rest: seq<T>, key: T -> int)
    requires NewestFirst(rest, key)
    requires forall i :: 0 <= i < |rest| ==> key(rest[i]) <= key(y)
    ensures NewestFirst([y] + rest, key)
  {
    var r := [y] + rest;
    forall i, j | 0 <= i < j < |r| ensures key(r[i]) >= key(r[j]) {
      assert r[j] == rest[j - 1];
      if i > 0 {
        assert r[i] == rest[i - 1];
      }
    }
  }

  /**
   * The store's ordering by creation time, newest first. Rows with equal keys may come
   * in either order in the store; this model fixes one of those orders.
   */
  function SortNewestFirst<T>(s: seq<T>, key: T -> int): (r: seq<T>)
    ensures NewestFirst(r, key)
    ensures multiset(r) == multiset(s)
    ensures |r| == |s|
  {
    if s == [] then []
    else
      assert s == [s[0]] + s[1..];
      Insert(s[0], SortNewestFirst(s[1..], key), key)
  }

  /** Sorting neither invents nor loses elements: each output element is an input element and vice versa. */
  lemma SortKeepsElements<T>(s: seq<T>, key: T -> int)
    ensures forall k :: 0 <= k < |s| ==> SortNewestFirst(s, key)[k] in s
    ensures forall i :: 0 <= i < |s| ==> s[i] in SortNewestFirst(s, key)
  {
    var r := SortNewestFirst(s, key);
    forall k | 0 <= k < |r| ensures r[k] in s {
      assert r[k] in multiset(r);
    }
    forall i | 0 <= i < |s| ensures s[i] in r {
      assert s[i] in multiset(s);
    }
  }

  /** `skip`/`take` on an ordered result: at most `take` rows starting at row `skip`. */
  function Slice<T>(s: seq<T>, skip: nat, take: nat): (r: seq<T>)
    ensures |r| <= take
    ensures skip >= |s| ==> r == []
    ensures skip < |s| ==> |r| == if |s| - skip < take then |s| - skip else take
    ensures forall i :: 0 <= i < |r| ==> skip + i < |s| && r[i] == s[skip + i]
  {
    if skip >= |s| then []
    else if skip + take <= |s| then s[skip..skip + take]
    else s[skip..]
  }

  /** The row where page `pageIndex` starts: `skip: pageIndex * pageSize`. */
  function Offset(pageIndex: nat, pageSize: nat): nat {
    pageIndex * pageSize
  }

  /** Integer ceiling division `Math.ceil(n / d)` for a positive divisor. */
  function CeilDiv(n: nat, d: nat): (r: nat)
    requires d > 0
    ensures r * d >= n
    ensures r > 0 ==> (r - 1) * d < n
  {
    if n == 0 then 0 else 1 + CeilDiv(if n <= d then 0 else n - d, d)
  }

  /**
   * The `pageCount` field. For a zero page size the source divides by zero and gets NaN or
   * Infinity, which serialise to JSON `null`; the model returns `None` then.
   */
  function PageCount(count: nat, pageSize: nat): (r: Option<nat>)
    ensures r.None? <==> pageSize == 0
    ensures r.Some? ==> r.value * pageSize >= count && (r.value == 0 || (r.value - 1) * pageSize < count)
  {
    if pageSize == 0 then None else Some(CeilDiv(count, pageSize))
  }

  /** The pages `0 .. k-1` of `s`, concatenated in page order. */
  function Pages<T>(s: seq<T>, size: nat, k: nat): seq<T> {
    if k == 0 then [] else Pages(s, size, k - 1) + Slice(s, (k - 1) * size, size)
  }

  /** Concatenating the first `k` pages yields exactly the first `k * size` rows (or all of them). */
  lemma {:induction false} PagesArePrefix<T>(s: seq<T>, size: nat, k: nat)
    ensures Pages(s, size, k) == if k * size <= |s| then s[..k * size] else s
  {
    if k > 0 {
      PagesArePrefix(s, size, k - 1);
      var lo, hi := (k - 1) * size, k * size;
      MulPred(k, size);
      PageStep(s, size, lo, Pages(s, size, k - 1));
      assert hi == lo + size;
    }
  }

  /** Appending the page that starts at `lo` to the rows before `lo` gives the rows before `lo + size`. */
  lemma PageStep<T>(s: seq<T>, size: nat, lo: nat, prev: seq<T>)
    requires prev == if lo <= |s| then s[..lo] else s
    ensures prev + Slice(s, lo, size) == if lo + size <= |s| then s[..lo + size] else s
  {
    if lo >= |s| {
      assert Slice(s, lo, size) == [];
    } else if lo + size <= |s| {
      assert s[..lo] + s[lo..lo + size] == s[..lo + size];
    } else {
      assert s[..lo] + s[lo..] == s;
    }
  }

  /**
   * The whole result is covered by pages `0 .. pageCount-1`: concatenating them gives back
   * every row exactly once and in order, so no row is lost or repeated across pages.
   */
  lemma PagesCoverAll<T>(s: seq<T>, size: nat)
    requires size > 0
    ensures Pages(s, size, CeilDiv(|s|, size)) == s
  {
    PagesArePrefix(s, size, CeilDiv(|s|, size));
  }

  /** Row `i` lies on page `i / size`, a page below `pageCount`, at offset `i % size`; on no other page. */
  lemma RowOnOnePage<T>(s: seq<T>, size: nat, i: nat)
    requires size > 0 && i < |s|
    ensures i / size < CeilDiv(|s|, size)
    ensures i % size < |Slice(s, (i / size) * size, size)|
    ensures Slice(s, (i / size) * size, size)[i % size] == s[i]
    ensures forall p: nat :: p * size <= i < p * size + size ==> p == i / size
  {
    PageBelowCount(i, size, |s|);
    DivMod(i, size);
    forall q: nat | q * size <= i < q * size + size ensures q == i / size {
      PageOfRowUnique(i, size, q);
    }
  }

  /** The page that holds row `i`. */
  function PageOf(i: nat, size: nat): nat
    requires size > 0
  {
    i / size
  }

  /** The page of row `i` is below the page count of any row count above `i`. */
  lemma PageBelowCount(i: nat, size: nat, count: nat)
    requires size > 0 && i < count
    ensures i / size < CeilDiv(count, size)
  {
    var p := i / size;
    var c := CeilDiv(count, size);
    DivMod(i, size);
    if c <= p {
      MulMonotone(c, p, size);
      assert false;
    }
  }

  /** The only page whose row range holds row `i` is page `i / size`. */
  lemma PageOfRowUnique(i: nat, size: nat, q: nat)
    requires size > 0 && q * size <= i < q * size + size
    ensures q == i / size
  {
    var p := i / size;
    DivMod(i, size);
    if q < p {
      MulMonotone(q + 1, p, size);
      MulSucc(q, size);
      assert false;
    } else if q > p {
      MulMonotone(p + 1, q, size);
      MulSucc(p, size);
      assert false;
    }
  }

  lemma DivMod(i: nat, size: nat)
    requires size > 0
    ensures (i / size) * size + i % size == i
    ensures 0 <= i % size < size
  {
  }

  lemma MulSucc(a: nat, m: nat)
    ensures (a + 1) * m == a * m + m
  {
  }

  lemma MulPred(a: nat, m: nat)
    requires a > 0
    ensures a * m == (a - 1) * m + m
  {
  }

  lemma MulMonotone(a: nat, b: nat, m: nat)
    requires a <= b
    ensures a * m <= b * m
  {
  }
}
