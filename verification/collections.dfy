/** The array primitives the resolvers are built from, on immutable sequences.

    Every lookup in the resolvers compares one integer field of a record with
    a given value: `findIndex(post => post.id === postId)`, lodash's
    `find(coll, { id: k })` and `filter(coll, { authorId: k })`. They are
    modelled once here, generic in the record type, with `key` selecting the
    compared field. */
module Collections {
  import opened Results

  /** Some element of `s` has key `k`. */
  predicate HasKey<T>(s: seq<T>, key: T -> int, k: int) {
    exists i :: 0 <= i < |s| && key(s[i]) == k
  }

  /** `i` is the position of the first element of `s` whose key is `k`. */
  predicate IsFirstWithKey<T>(s: seq<T>, key: T -> int, k: int, i: int) {
    && 0 <= i < |s|
    && key(s[i]) == k
    && forall j :: 0 <= j < i ==> key(s[j]) != k
  }

  /** Keys strictly increase along the sequence (the seed data's id order). */
  predicate StrictlyAscending<T>(s: seq<T>, key: T -> int) {
    forall i, j :: 0 <= i < j < |s| ==> key(s[i]) < key(s[j])
  }

  /** No two elements share a key. */
  predicate UniqueKeys<T>(s: seq<T>, key: T -> int) {
    forall i, j :: 0 <= i < |s| && 0 <= j < |s| && i != j ==> key(s[i]) != key(s[j])
  }

  /** `Array.prototype.findIndex` with a key-equality callback: the first
      matching position, or -1 when nothing matches. */
  function FindIndex<T>(s: seq<T>, key: T -> int, k: int): (i: int)
    ensures -1 <= i < |s|
    ensures i == -1 <==> !HasKey(s, key, k)
    ensures i != -1 ==> IsFirstWithKey(s, key, k, i)
  {
    if |s| == 0 then -1
    else if key(s[0]) == k then 0
    else
      var rest := FindIndex(s[1..], key, k);
      if rest == -1 then -1 else rest + 1
  }

  /** lodash `find(coll, { field: k })`: the first element whose key is `k`,
      or nothing (`undefined`). */
  function Find<T>(s: seq<T>, key: T -> int, k: int): (r: Option<T>)
    ensures r.None? <==> !HasKey(s, key, k)
    ensures r.Some? ==> exists i :: IsFirstWithKey(s, key, k, i) && s[i] == r.value
  {
    var i := FindIndex(s, key, k);
    if i == -1 then None else Some(s[i])
  }

  /** `a` can be obtained from `b` by deleting elements, order kept. */
  predicate IsSubsequence<T(==)>(a: seq<T>, b: seq<T>)
    decreases |b|
  {
    if |a| == 0 then true
    else if |b| == 0 then false
    else if a[0] == b[0] then IsSubsequence(a[1..], b[1..])
    else IsSubsequence(a, b[1..])
  }

  /** lodash `filter(coll, { field: k })`: the elements whose key is `k`, in
      their original order. */
  function Filter<T(==,!new)>(s: seq<T>, key: T -> int, k: int): (r: seq<T>)
    ensures forall x :: x in r <==> x in s && key(x) == k
    ensures IsSubsequence(r, s)
    ensures |r| == 0 <==> !HasKey(s, key, k)
  {
    if |s| == 0 then []
    else
      var rest := Filter(s[1..], key, k);
      assert s == [s[0]] + s[1..];
      if key(s[0]) == k then [s[0]] + rest else rest
  }

  /** Filtering keeps every matching occurrence and nothing else. */
  lemma {:induction false} FilterMultiset<T(!new)>(s: seq<T>, key: T -> int, k: int)
    ensures forall x :: multiset(Filter(s, key, k))[x] == if key(x) == k then multiset(s)[x] else 0
    decreases |s|
  {
    if |s| > 0 {
      FilterMultiset(s[1..], key, k);
      assert s == [s[0]] + s[1..];
    }
  }

  /** Filtering distributes over appending one element. */
  lemma {:induction false} FilterAppend<T(!new)>(s: seq<T>, x: T, key: T -> int, k: int)
    ensures Filter(s + [x], key, k) == Filter(s, key, k) + (if key(x) == k then [x] else [])
    decreases |s|
  {
    if |s| == 0 {
      assert s + [x] == [x];
      assert [x][1..] == [];
    } else {
      var t := s + [x];
      assert t[0] == s[0];
      assert t[1..] == s[1..] + [x];
      FilterAppend(s[1..], x, key, k);
      var head: seq<T> := if key(s[0]) == k then [s[0]] else [];
      assert Filter(t, key, k) == head + Filter(t[1..], key, k);
      assert Filter(s, key, k) == head + Filter(s[1..], key, k);
    }
  }

  /** A second update of the same position overrides the first. */
  lemma UpdateTwice<T>(s: seq<T>, i: int, a: T, b: T)
    requires 0 <= i < |s|
    ensures s[i := a][i := b] == s[i := b]
  {
  }

  /** The sequence with position `i` taken out. */
  function RemoveAt<T>(s: seq<T>, i: int): (r: seq<T>)
    requires 0 <= i < |s|
    ensures |r| == |s| - 1
    ensures forall j :: 0 <= j < i ==> r[j] == s[j]
    ensures forall j :: i <= j < |r| ==> r[j] == s[j + 1]
  {
    s[..i] + s[i + 1..]
  }

  /** `Array.prototype.splice(start, 1)` on the array `s`, keeping only the
      array it leaves behind. A negative `start` counts from the end
      (clamped at 0) and a `start` at or past the end removes nothing, as
      ECMA-262 specifies for `Array.prototype.splice`. */
  function SpliceOne<T>(s: seq<T>, start: int): (r: seq<T>)
    ensures 0 <= start < |s| ==> r == RemoveAt(s, start)
    ensures -|s| <= start < 0 ==> r == RemoveAt(s, |s| + start)
    ensures start < -|s| && |s| > 0 ==> r == RemoveAt(s, 0)
    ensures start >= |s| || |s| == 0 ==> r == s
  {
    var from := if start < 0 then (if |s| + start < 0 then 0 else |s| + start)
                else (if start < |s| then start else |s|);
    var count := if |s| - from < 1 then |s| - from else 1;
    s[..from] + s[from + count..]
  }

  /** The sequence without its last element (what `splice(-1, 1)` leaves). */
  function DropLast<T>(s: seq<T>): (r: seq<T>)
    ensures |s| > 0 ==> |r| == |s| - 1 && forall j :: 0 <= j < |r| ==> r[j] == s[j]
    ensures |s| == 0 ==> r == []
  {
    if |s| == 0 then [] else s[..|s| - 1]
  }

  lemma {:induction false} RemoveAtIsSubsequence<T>(s: seq<T>, i: int)
    requires 0 <= i < |s|
    ensures IsSubsequence(RemoveAt(s, i), s)
  {
    SubsequenceOfSelf(s[i + 1..]);
    if i == 0 {
      assert RemoveAt(s, 0) == s[1..];
      SkipHead(s[1..], s);
    } else {
      RemoveAtIsSubsequence(s[1..], i - 1);
      assert RemoveAt(s, i) == [s[0]] + RemoveAt(s[1..], i - 1);
      assert RemoveAt(s, i)[1..] == RemoveAt(s[1..], i - 1);
    }
  }

  /** Removing a position takes exactly that one element away. */
  lemma RemoveAtMultiset<T>(s: seq<T>, i: int)
    requires 0 <= i < |s|
    ensures multiset(RemoveAt(s, i)) + multiset{s[i]} == multiset(s)
  {
    assert s == s[..i] + [s[i]] + s[i + 1..];
  }

  lemma {:induction false} SubsequenceOfSelf<T>(s: seq<T>)
    ensures IsSubsequence(s, s)
    decreases |s|
  {
    if |s| > 0 {
      SubsequenceOfSelf(s[1..]);
    }
  }

  /** A subsequence of the tail is a subsequence of the whole. */
  lemma {:induction false} SkipHead<T>(a: seq<T>, b: seq<T>)
    requires |b| > 0 && a == b[1..]
    ensures IsSubsequence(a, b)
  {
    SubsequenceOfSelf(a);
    ConsSubsequence(a, b);
  }

  lemma {:induction false} ConsSubsequence<T>(a: seq<T>, b: seq<T>)
    requires |b| > 0 && IsSubsequence(a, b[1..])
    ensures IsSubsequence(a, b)
    decreases |b|, 0
  {
    if |a| > 0 && a[0] == b[0] {
      // a[1..] is a subsequence of b[1..] because a is one of b[1..]
      DropHeadSubsequence(a, b[1..]);
    }
  }

  /** Dropping the head of a subsequence keeps it a subsequence. */
  lemma {:induction false} DropHeadSubsequence<T>(a: seq<T>, b: seq<T>)
    requires |a| > 0 && IsSubsequence(a, b)
    ensures IsSubsequence(a[1..], b)
    decreases |b|, 1
  {
    if a[0] == b[0] {
      ConsSubsequence(a[1..], b);
    } else {
      DropHeadSubsequence(a, b[1..]);
      ConsSubsequence(a[1..], b);
    }
  }

  /** Every element of a subsequence occurs, in order, in the whole; for key
      order that means strict ascent is inherited. */
  lemma {:induction false} SubsequenceAscending<T>(a: seq<T>, b: seq<T>, key: T -> int)
    requires IsSubsequence(a, b) && StrictlyAscending(b, key)
    ensures StrictlyAscending(a, key)
    decreases |b|
  {
    if |a| > 0 && |b| > 0 {
      if a[0] == b[0] {
        SubsequenceAscending(a[1..], b[1..], key);
        forall j | 0 < j < |a| ensures key(a[0]) < key(a[j]) {
          SubsequenceElement(a[1..], b[1..], j - 1);
        }
      } else {
        SubsequenceAscending(a, b[1..], key);
      }
    }
  }

  /** An element of a subsequence is an element of the whole. */
  lemma {:induction false} SubsequenceElement<T>(a: seq<T>, b: seq<T>, j: int)
    requires IsSubsequence(a, b) && 0 <= j < |a|
    ensures a[j] in b
    decreases |b|
  {
    if a[0] == b[0] {
      if j > 0 {
        SubsequenceElement(a[1..], b[1..], j - 1);
      }
    } else {
      SubsequenceElement(a, b[1..], j);
    }
  }

  lemma AscendingKeysAreUnique<T>(s: seq<T>, key: T -> int)
    requires StrictlyAscending(s, key)
    ensures UniqueKeys(s, key)
  {
  }
}
