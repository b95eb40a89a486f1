/** The per-position median of a stack of samples, truncated to an 8-bit
    value as create_background's median step does. It is defined through
    a reference sort of the samples and comes with the order statistics it
    satisfies. */
module Statistics {
  import opened Images

  predicate Sorted(s: seq<int>)
  {
    forall a, b :: 0 <= a < b < |s| ==> s[a] <= s[b]
  }

  /** Inserts `x` into the sorted sequence `s` before its first larger element. */
  function Insert(x: int, s: seq<int>): (r: seq<int>)
    requires Sorted(s)
    ensures Sorted(r)
    ensures multiset(r) == multiset(s) + multiset{x}
    ensures |r| == |s| + 1
    ensures r[0] == if s == [] then x else Min(x, s[0])
  {
    if s == [] || x <= s[0] then
      SortedCons(x, s);
      [x] + s
    else
      var t := Insert(x, s[1..]);
      assert s == [s[0]] + s[1..];
      SortedCons(s[0], t);
      [s[0]] + t
  }

  lemma SortedCons(y: int, t: seq<int>)
    requires Sorted(t)
    requires t != [] ==> y <= t[0]
    ensures Sorted([y] + t)
  {
  }

  /** Insertion sort: the reference ordering of a stack of samples. */
  function Sort(s: seq<int>): (r: seq<int>)
    ensures Sorted(r)
    ensures multiset(r) == multiset(s)
    ensures |r| == |s|
  {
    if s == [] then []
    else
      assert s == [s[0]] + s[1..];
      Insert(s[0], Sort(s[1..]))
  }

  /** Two sorted sequences holding the same elements are equal. */
  lemma {:induction false} SortedUnique(a: seq<int>, b: seq<int>)
    requires Sorted(a) && Sorted(b)
    requires multiset(a) == multiset(b)
    ensures a == b
  {
    if a != [] {
      var x := a[0];
      assert x in multiset(a);
      SortedHeadIsLeast(b, x);
      assert b[0] in multiset(a);
      SortedHeadIsLeast(a, b[0]);
      assert multiset(a) == multiset{x} + multiset(a[1..]) by {
        assert a == [x] + a[1..];
      }
      assert multiset(b) == multiset{x} + multiset(b[1..]) by {
        assert b == [x] + b[1..];
      }
      assert multiset(a[1..]) == multiset(a) - multiset{x};
      assert multiset(b[1..]) == multiset(b) - multiset{x};
      SortedTail(a);
      SortedTail(b);
      SortedUnique(a[1..], b[1..]);
      assert a == [x] + a[1..] && b == [x] + b[1..];
    }
  }

  lemma SortedTail(s: seq<int>)
    requires Sorted(s) && s != []
    ensures Sorted(s[1..])
  {
    assert forall k :: 0 <= k < |s| - 1 ==> s[1..][k] == s[k + 1];
  }

  /** The first element of a sorted sequence is at most each of its elements. */
  lemma SortedHeadIsLeast(s: seq<int>, x: int)
    requires Sorted(s) && x in multiset(s)
    ensures s != [] && s[0] <= x
  {
    assert x in s;
  }

  /** Sorting depends only on which samples there are, not their order. */
  lemma SortPermutationInvariant(s: seq<int>, t: seq<int>)
    requires multiset(s) == multiset(t)
    ensures Sort(s) == Sort(t)
  {
    SortedUnique(Sort(s), Sort(t));
  }

  lemma SortBytes(xs: seq<Byte>)
    ensures forall k :: 0 <= k < |Sort(xs)| ==> 0 <= Sort(xs)[k] < 256
  {
    var s := Sort(xs);
    forall k | 0 <= k < |s|
      ensures 0 <= s[k] < 256
    {
      assert s[k] in multiset(s);
      assert s[k] in multiset(xs);
    }
  }

  /** The median of a non-empty stack of samples, truncated to uint8: the
      middle sorted sample for an odd count, and the floor of the mean of the
      two middle sorted samples for an even count. */
  function MedianOf(xs: seq<Byte>): (m: Byte)
    requires |xs| > 0
    ensures Sort(xs)[(|xs| - 1) / 2] <= m <= Sort(xs)[|xs| / 2]
  {
    SortBytes(xs);
    var s := Sort(xs);
    var n := |s|;
    if n % 2 == 1 then
      assert (n - 1) / 2 == n / 2;
      s[n / 2]
    else
      assert (n - 1) / 2 == n / 2 - 1;
      assert s[n / 2 - 1] <= s[n / 2];
      (s[n / 2 - 1] + s[n / 2]) / 2
  }

  /** The number of samples that lie in the closed range [lo, hi]. */
  function CountIn(s: seq<int>, lo: int, hi: int): (c: nat)
    ensures c <= |s|
  {
    if s == [] then 0
    else (if lo <= s[0] <= hi then 1 else 0) + CountIn(s[1..], lo, hi)
  }

  lemma {:induction false} CountInAppend(a: seq<int>, b: seq<int>, lo: int, hi: int)
    ensures CountIn(a + b, lo, hi) == CountIn(a, lo, hi) + CountIn(b, lo, hi)
  {
    if a != [] {
      assert (a + b)[0] == a[0];
      assert (a + b)[1..] == a[1..] + b;
      CountInAppend(a[1..], b, lo, hi);
    } else {
      assert a + b == b;
    }
  }

  lemma {:induction false} CountInAll(s: seq<int>, lo: int, hi: int)
    requires forall k :: 0 <= k < |s| ==> lo <= s[k] <= hi
    ensures CountIn(s, lo, hi) == |s|
  {
    if s != [] {
      CountInAll(s[1..], lo, hi);
    }
  }

  lemma {:induction false} CountInNone(s: seq<int>, lo: int, hi: int)
    requires forall k :: 0 <= k < |s| ==> !(lo <= s[k] <= hi)
    ensures CountIn(s, lo, hi) == 0
  {
    if s != [] {
      CountInNone(s[1..], lo, hi);
    }
  }

  lemma {:induction false} CountInInsert(x: int, s: seq<int>, lo: int, hi: int)
    requires Sorted(s)
    ensures CountIn(Insert(x, s), lo, hi) == CountIn([x] + s, lo, hi)
  {
    if s != [] && x > s[0] {
      CountInInsert(x, s[1..], lo, hi);
      assert ([x] + s)[1..] == s;
      assert ([x] + s[1..])[1..] == s[1..];
    }
  }

  /** Sorting does not change how many samples fall in a range. */
  lemma {:induction false} CountInSort(s: seq<int>, lo: int, hi: int)
    ensures CountIn(Sort(s), lo, hi) == CountIn(s, lo, hi)
  {
    if s != [] {
      CountInSort(s[1..], lo, hi);
      CountInInsert(s[0], Sort(s[1..]), lo, hi);
      assert ([s[0]] + Sort(s[1..]))[1..] == Sort(s[1..]);
    }
  }

  /** In a sorted sequence, a sample below `v` at index `k` leaves at most
      |s| - k - 1 places for `v`. */
  lemma CountEqBelow(s: seq<int>, k: nat, v: int)
    requires Sorted(s) && k < |s| && s[k] < v
    ensures CountIn(s, v, v) <= |s| - k - 1
  {
    assert s == s[..k + 1] + s[k + 1..];
    CountInAppend(s[..k + 1], s[k + 1..], v, v);
    CountInNone(s[..k + 1], v, v);
  }

  /** In a sorted sequence, a sample above `v` at index `k` leaves at most
      k places for `v`. */
  lemma CountEqAbove(s: seq<int>, k: nat, v: int)
    requires Sorted(s) && k < |s| && s[k] > v
    ensures CountIn(s, v, v) <= k
  {
    assert s == s[..k] + s[k..];
    CountInAppend(s[..k], s[k..], v, v);
    CountInNone(s[k..], v, v);
  }

  /** The median depends only on the multiset of samples: permuting the
      stack of images does not change the background. */
  lemma MedianPermutationInvariant(xs: seq<Byte>, ys: seq<Byte>)
    requires |xs| > 0
    requires multiset(xs) == multiset(ys)
    ensures |ys| > 0 && MedianOf(xs) == MedianOf(ys)
  {
    assert |ys| == |multiset(ys)| == |multiset(xs)| == |xs|;
    SortPermutationInvariant(xs, ys);
  }

  /** Any bounds on all the samples bound the median; in particular it lies
      between the smallest and the largest sample. For an odd count the
      median is itself one of the samples. */
  lemma MedianBounds(xs: seq<Byte>, lo: int, hi: int)
    requires |xs| > 0
    requires forall k :: 0 <= k < |xs| ==> lo <= xs[k] <= hi
    ensures lo <= MedianOf(xs) <= hi
    ensures |xs| % 2 == 1 ==> MedianOf(xs) in xs
  {
    var s := Sort(xs);
    var n := |s|;
    forall k | 0 <= k < n
      ensures lo <= s[k] <= hi && s[k] in xs
    {
      assert s[k] in multiset(s);
      assert s[k] in multiset(xs);
    }
    if n % 2 == 0 {
      assert lo <= s[n / 2 - 1] && s[n / 2] <= hi;
    }
  }

  /** A stack in which every sample is `v` has median `v`. */
  lemma MedianConstant(xs: seq<Byte>, v: Byte)
    requires |xs| > 0
    requires forall k :: 0 <= k < |xs| ==> xs[k] == v
    ensures MedianOf(xs) == v
  {
    MedianBounds(xs, v, v);
  }

  /** In a sorted sequence of bytes whose sample at index k - 1 is at most
      `m`, at least k samples are at most `m`. */
  lemma SortedCountBelow(s: seq<int>, k: nat, m: int)
    requires Sorted(s) && 0 < k <= |s|
    requires forall i :: 0 <= i < |s| ==> 0 <= s[i] <= 255
    requires s[k - 1] <= m
    ensures CountIn(s, 0, m) >= k
  {
    var front, back := s[..k], s[k..];
    assert s == front + back;
    CountInAppend(front, back, 0, m);
    assert forall i :: 0 <= i < |front| ==> front[i] == s[i] && s[i] <= s[k - 1];
    CountInAll(front, 0, m);
  }

  /** In a sorted sequence of bytes whose sample at index q is at least
      `m`, at least |s| - q samples are at least `m`. */
  lemma SortedCountAbove(s: seq<int>, q: nat, m: int)
    requires Sorted(s) && q < |s|
    requires forall i :: 0 <= i < |s| ==> 0 <= s[i] <= 255
    requires m <= s[q]
    ensures CountIn(s, m, 255) >= |s| - q
  {
    var front, back := s[..q], s[q..];
    assert s == front + back;
    CountInAppend(front, back, m, 255);
    assert forall i :: 0 <= i < |back| ==> back[i] == s[q + i] && s[q] <= s[q + i];
    CountInAll(back, m, 255);
  }

  /** The median is a median: at least half of the samples are at most it,
      and at least half are at least it. For an even count it lies between
      the two middle samples and is the floor of their mean. */
  lemma MedianSplitsStack(xs: seq<Byte>)
    requires |xs| > 0
    ensures 2 * CountIn(xs, 0, MedianOf(xs)) >= |xs|
    ensures 2 * CountIn(xs, MedianOf(xs), 255) >= |xs|
    ensures |xs| % 2 == 0 ==>
      var s := Sort(xs);
      var a, b := s[|xs| / 2 - 1], s[|xs| / 2];
      a <= MedianOf(xs) <= b && 2 * MedianOf(xs) <= a + b <= 2 * MedianOf(xs) + 1
  {
    SortBytes(xs);
    var s := Sort(xs);
    var n := |s|;
    var m := MedianOf(xs);
    var q := n / 2;
    if n % 2 == 1 {
      SortedCountBelow(s, q + 1, m);
    } else {
      SortedCountBelow(s, q, m);
    }
    SortedCountAbove(s, q, m);
    CountInSort(xs, 0, m);
    CountInSort(xs, m, 255);
  }

  /** Robustness: a value held by a strict majority of the stack is the
      median, whatever the other samples are. */
  lemma MedianMajority(xs: seq<Byte>, v: Byte)
    requires 2 * CountIn(xs, v, v) > |xs|
    ensures |xs| > 0 && MedianOf(xs) == v
  {
    CountInSort(xs, v, v);
    SortedMajority(Sort(xs), v);
  }

  /** In a sorted sequence, a value held by a strict majority sits at the
      middle index, and for an even length also just before it. */
  lemma SortedMajority(s: seq<int>, v: int)
    requires Sorted(s) && 2 * CountIn(s, v, v) > |s|
    ensures |s| > 0 && s[|s| / 2] == v
    ensures |s| % 2 == 0 ==> s[|s| / 2 - 1] == v
  {
    var q := |s| / 2;
    if s[q] < v {
      CountEqBelow(s, q, v);
    } else if s[q] > v {
      CountEqAbove(s, q, v);
    }
    if |s| % 2 == 0 {
      if s[q - 1] < v {
        CountEqBelow(s, q - 1, v);
      } else if s[q - 1] > v {
        CountEqAbove(s, q - 1, v);
      }
    }
  }
}
