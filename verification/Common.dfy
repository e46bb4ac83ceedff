/** Fixed-width numbers, options and results, string order, and the shared binary search. */
module Common {

  datatype Option<+T> = None | Some(value: T)

  datatype Result<+T, +E> = Ok(value: T) | Err(error: E)

  type byte = n: nat | n < 0x100
  type u16 = n: nat | n < 0x1_0000
  type u32 = n: nat | n < 0x1_0000_0000
  type u64 = n: nat | n < 0x1_0000_0000_0000_0000
  type u128 = n: nat | n < 0x1_0000_0000_0000_0000_0000_0000_0000_0000

  /** A hardware address of a length that macToKey accepts; it panics on any other. */
  type Mac = m: seq<byte> | |m| == 6 || |m| == 8 || |m| == 20 witness [0, 0, 0, 0, 0, 0]

  ghost predicate Chains<K>(cmp: (K, K) -> int, a: K, b: K, c: K) {
    cmp(a, b) < 0 && cmp(b, c) < 0 ==> cmp(a, c) < 0
  }

  ghost predicate Opposes<K>(cmp: (K, K) -> int, a: K, b: K) {
    && (cmp(a, b) == 0 <==> a == b)
    && (cmp(a, b) < 0 <==> cmp(b, a) > 0)
  }

  /** The comparator decides equality and orders every two keys, transitively. */
  ghost predicate StrictTotalOrder<K(!new)>(cmp: (K, K) -> int) {
    && (forall a, b :: Opposes(cmp, a, b))
    && (forall a, b, c :: Chains(cmp, a, b, c))
  }

  /** Lexicographic comparison of strings, as strings.Compare does it. */
  function CompareStrings(a: string, b: string): int {
    if a == [] then (if b == [] then 0 else -1)
    else if b == [] then 1
    else if a[0] < b[0] then -1
    else if a[0] > b[0] then 1
    else CompareStrings(a[1..], b[1..])
  }

  lemma {:induction false} CompareStringsPair(a: string, b: string)
    ensures CompareStrings(a, b) == 0 <==> a == b
    ensures CompareStrings(a, b) == -CompareStrings(b, a)
  {
    if a != [] && b != [] && a[0] == b[0] {
      CompareStringsPair(a[1..], b[1..]);
      assert a == [a[0]] + a[1..] && b == [b[0]] + b[1..];
    }
  }

  lemma {:induction false} CompareStringsTransitive(a: string, b: string, c: string)
    requires CompareStrings(a, b) < 0 && CompareStrings(b, c) < 0
    ensures CompareStrings(a, c) < 0
  {
    if a != [] && b != [] && c != [] && a[0] == b[0] == c[0] {
      CompareStringsTransitive(a[1..], b[1..], c[1..]);
    }
  }

  lemma CompareStringsIsOrder()
    ensures StrictTotalOrder(CompareStrings)
  {
    forall a, b
      ensures Opposes(CompareStrings, a, b)
    {
      CompareStringsPair(a, b);
    }
    forall a, b, c
      ensures Chains(CompareStrings, a, b, c)
    {
      if CompareStrings(a, b) < 0 && CompareStrings(b, c) < 0 {
        CompareStringsTransitive(a, b, c);
      }
    }
  }

  /** a comes before b: at the first difference it has the smaller character, or it ends there. */
  ghost predicate Precedes(a: string, b: string, i: nat) {
    && i <= |a| && i < |b| && (forall j :: 0 <= j < i ==> a[j] == b[j])
    && (i == |a| || a[i] < b[i])
  }

  /** The order of strings is the lexicographic one. */
  lemma {:induction false} CompareStringsIsLexicographic(a: string, b: string)
    ensures CompareStrings(a, b) < 0 <==> exists i :: Precedes(a, b, i)
  {
    if a != [] && b != [] && a[0] == b[0] {
      CompareStringsIsLexicographic(a[1..], b[1..]);
      if i: nat :| Precedes(a[1..], b[1..], i) {
        forall j | 0 <= j < i + 1
          ensures a[j] == b[j]
        {
          assert j > 0 ==> a[1..][j - 1] == b[1..][j - 1];
        }
        assert Precedes(a, b, i + 1);
      }
      if i: nat :| Precedes(a, b, i) {
        assert Precedes(a[1..], b[1..], i - 1);
      }
    } else if b != [] && (a == [] || a[0] < b[0]) {
      assert Precedes(a, b, 0);
    }
  }

  function InsertString(s: string, sorted: seq<string>): seq<string> {
    if sorted == [] || CompareStrings(s, sorted[0]) <= 0 then [s] + sorted
    else [sorted[0]] + InsertString(s, sorted[1..])
  }

  /** slices.Sort of strings. */
  function SortStrings(ss: seq<string>): seq<string> {
    if ss == [] then [] else InsertString(ss[0], SortStrings(ss[1..]))
  }

  ghost predicate SortedStrings(ss: seq<string>) {
    forall i, j :: 0 <= i < j < |ss| ==> CompareStrings(ss[i], ss[j]) <= 0
  }

  lemma NotGreater(a: string, b: string, c: string)
    requires CompareStrings(a, b) <= 0 && CompareStrings(b, c) <= 0
    ensures CompareStrings(a, c) <= 0
    ensures CompareStrings(b, c) < 0 ==> CompareStrings(a, c) < 0
  {
    CompareStringsPair(a, b);
    CompareStringsPair(b, c);
    if CompareStrings(a, b) < 0 && CompareStrings(b, c) < 0 {
      CompareStringsTransitive(a, b, c);
    }
  }

  lemma PrependSorted(s: string, sorted: seq<string>)
    requires SortedStrings(sorted) && forall t :: t in sorted ==> CompareStrings(s, t) <= 0
    ensures SortedStrings([s] + sorted)
  {
  }

  lemma BelowHead(s: string, sorted: seq<string>)
    requires SortedStrings(sorted) && sorted != [] && CompareStrings(s, sorted[0]) <= 0
    ensures forall t :: t in sorted ==> CompareStrings(s, t) <= 0
  {
    forall i | 0 < i < |sorted|
      ensures CompareStrings(s, sorted[i]) <= 0
    {
      NotGreater(s, sorted[0], sorted[i]);
    }
  }

  lemma {:induction false} InsertStringHas(s: string, sorted: seq<string>)
    ensures multiset(InsertString(s, sorted)) == multiset(sorted) + multiset{s}
    ensures forall t :: t in InsertString(s, sorted) <==> t == s || t in sorted
  {
    if sorted != [] && CompareStrings(s, sorted[0]) > 0 {
      InsertStringHas(s, sorted[1..]);
      assert sorted == [sorted[0]] + sorted[1..];
    }
  }

  lemma {:induction false} InsertStringSorts(s: string, sorted: seq<string>)
    requires SortedStrings(sorted)
    ensures SortedStrings(InsertString(s, sorted))
  {
    if sorted != [] {
      CompareStringsPair(s, sorted[0]);
      if CompareStrings(s, sorted[0]) <= 0 {
        BelowHead(s, sorted);
        PrependSorted(s, sorted);
      } else {
        InsertStringSorts(s, sorted[1..]);
        InsertStringHas(s, sorted[1..]);
        PrependSorted(sorted[0], InsertString(s, sorted[1..]));
      }
    }
  }

  /** The result is sorted and has the same strings, each as often. */
  lemma {:induction false} SortStringsSorts(ss: seq<string>)
    ensures SortedStrings(SortStrings(ss)) && multiset(SortStrings(ss)) == multiset(ss)
  {
    if ss != [] {
      SortStringsSorts(ss[1..]);
      InsertStringSorts(ss[0], SortStrings(ss[1..]));
      InsertStringHas(ss[0], SortStrings(ss[1..]));
      assert ss == [ss[0]] + ss[1..];
    }
  }

  /**
   * slices.BinarySearchFunc: the position of target in x, and whether it is there.  x must be
   * sorted as far as target can tell: everything below target comes first.
   */
  method BinarySearchFunc<E>(x: seq<E>, target: E, cmp: (E, E) -> int) returns (i: nat, found: bool)
    requires forall a, b :: 0 <= a < b < |x| && cmp(x[b], target) < 0 ==> cmp(x[a], target) < 0
    ensures i <= |x|
    ensures forall k :: 0 <= k < i ==> cmp(x[k], target) < 0
    ensures forall k :: i <= k < |x| ==> cmp(x[k], target) >= 0
    ensures found <==> i < |x| && cmp(x[i], target) == 0
  {
    i := 0;
    var j := |x|;
    while i < j
      invariant 0 <= i <= j <= |x|
      invariant forall k :: 0 <= k < i ==> cmp(x[k], target) < 0
      invariant forall k :: j <= k < |x| ==> cmp(x[k], target) >= 0
    {
      var h := (i + j) / 2;
      if cmp(x[h], target) < 0 {
        i := h + 1;
      } else {
        j := h;
      }
    }
    found := i < |x| && cmp(x[i], target) == 0;
  }

  /** slices.Insert of one element. */
  function Insert<E>(s: seq<E>, i: nat, e: E): seq<E>
    requires i <= |s|
  {
    s[..i] + [e] + s[i..]
  }

  /** slices.Delete of the element at i. */
  function Delete<E>(s: seq<E>, i: nat): seq<E>
    requires i < |s|
  {
    s[..i] + s[i + 1..]
  }
}
