/** Generic sequence operations that the to-do store is built from:
    `Filter` is JavaScript's `Array.prototype.filter`, `SwapAdjacent` the
    destructuring swap of two neighbouring slots of an array copy. */
module Seqs {

  /** The elements of `s` that satisfy `p`, in their original order. */
  function Filter<T(!new)>(s: seq<T>, p: T -> bool): (r: seq<T>)
    ensures |r| <= |s|
    ensures forall x :: x in r <==> x in s && p(x)
  {
    if s == [] then []
    else if p(s[0]) then [s[0]] + Filter(s[1..], p)
    else Filter(s[1..], p)
  }

  /** Filtering distributes over concatenation: this is what "keeps the
      relative order" means for a filter. */
  lemma {:induction false} FilterAppend<T(!new)>(a: seq<T>, b: seq<T>, p: T -> bool)
    ensures Filter(a + b, p) == Filter(a, p) + Filter(b, p)
  {
    if a == [] {
      assert a + b == b;
    } else {
      assert (a + b)[0] == a[0];
      assert (a + b)[1..] == a[1..] + b;
      FilterAppend(a[1..], b, p);
    }
  }

  /** A filter that every element passes keeps the whole sequence. */
  lemma {:induction false} FilterAll<T(!new)>(s: seq<T>, p: T -> bool)
    requires forall x :: x in s ==> p(x)
    ensures Filter(s, p) == s
  {
    if s != [] {
      assert s[0] in s;
      assert forall x :: x in s[1..] ==> x in s;
      FilterAll(s[1..], p);
    }
  }

  /** A filter that no element passes keeps nothing. */
  lemma FilterNone<T(!new)>(s: seq<T>, p: T -> bool)
    requires forall x :: x in s ==> !p(x)
    ensures Filter(s, p) == []
  {
    if Filter(s, p) != [] {
      assert Filter(s, p)[0] in Filter(s, p);
    }
  }

  /** A filter that rejects one element and keeps all the others removes
      exactly that element. */
  lemma {:induction false} FilterDropOne<T(!new)>(pre: seq<T>, x: T, post: seq<T>, p: T -> bool)
    requires forall y :: y in pre ==> p(y)
    requires forall y :: y in post ==> p(y)
    requires !p(x)
    ensures Filter(pre + [x] + post, p) == pre + post
  {
    var s := pre + [x] + post;
    if pre == [] {
      assert s == [x] + post && s[1..] == post;
      FilterAll(post, p);
    } else {
      var rest := pre[1..];
      assert s[0] == pre[0] && s[1..] == rest + [x] + post;
      assert p(pre[0]) by {
        assert pre[0] in pre;
      }
      forall y | y in rest ensures p(y) {
        assert y in pre;
      }
      FilterDropOne(rest, x, post, p);
      assert pre + post == [pre[0]] + (rest + post);
    }
  }

  /** Replacing one element changes the number of elements that pass a
      filter only by what the old and the new element contribute. */
  lemma FilterReplaceLength<T(!new)>(s: seq<T>, k: nat, y: T, p: T -> bool)
    requires k < |s|
    ensures |Filter(s[k := y], p)| + (if p(s[k]) then 1 else 0)
         == |Filter(s, p)| + (if p(y) then 1 else 0)
  {
    var pre, post := s[..k], s[k + 1..];
    assert s == pre + [s[k]] + post;
    assert s[k := y] == pre + [y] + post;
    assert [s[k]][1..] == [] && [y][1..] == [];
    FilterAppend(pre + [s[k]], post, p);
    FilterAppend(pre, [s[k]], p);
    FilterAppend(pre + [y], post, p);
    FilterAppend(pre, [y], p);
  }

  /** Filtering twice by the same predicate changes nothing more. */
  lemma FilterTwice<T(!new)>(s: seq<T>, p: T -> bool)
    ensures Filter(Filter(s, p), p) == Filter(s, p)
  {
    FilterAll(Filter(s, p), p);
  }

  /** Splitting a sequence by a predicate and its complement loses and
      duplicates nothing. */
  lemma {:induction false} FilterSplitMultiset<T(!new)>(s: seq<T>, p: T -> bool, q: T -> bool)
    requires forall x :: q(x) == !p(x)
    ensures multiset(Filter(s, p)) + multiset(Filter(s, q)) == multiset(s)
  {
    if s != [] {
      assert Filter(s, p) == (if p(s[0]) then [s[0]] else []) + Filter(s[1..], p);
      assert Filter(s, q) == (if q(s[0]) then [s[0]] else []) + Filter(s[1..], q);
      FilterSplitMultiset(s[1..], p, q);
      assert s == [s[0]] + s[1..];
      assert multiset(s) == multiset{s[0]} + multiset(s[1..]);
    }
  }

  /** Sequences that are permutations of each other have the same members. */
  lemma MultisetSameMembers<T>(a: seq<T>, b: seq<T>)
    requires multiset(a) == multiset(b)
    ensures forall x :: x in a <==> x in b
  {
    forall x ensures x in a <==> x in b {
      assert x in a <==> x in multiset(a);
      assert x in b <==> x in multiset(b);
    }
  }

  /** The sequence `s` with the neighbouring slots `k` and `k + 1` exchanged. */
  function SwapAdjacent<T>(s: seq<T>, k: nat): (r: seq<T>)
    requires k + 1 < |s|
    ensures |r| == |s|
    ensures r[k] == s[k + 1] && r[k + 1] == s[k]
    ensures forall i :: 0 <= i < |s| && i != k && i != k + 1 ==> r[i] == s[i]
  {
    s[..k] + [s[k + 1], s[k]] + s[k + 2..]
  }

  /** Exchanging the same two slots twice restores the sequence. */
  lemma SwapAdjacentTwice<T>(s: seq<T>, k: nat)
    requires k + 1 < |s|
    ensures SwapAdjacent(SwapAdjacent(s, k), k) == s
  {
    var r := SwapAdjacent(SwapAdjacent(s, k), k);
    assert forall i :: 0 <= i < |s| ==> r[i] == s[i];
  }

  /** A swap is a permutation. */
  lemma SwapAdjacentMultiset<T>(s: seq<T>, k: nat)
    requires k + 1 < |s|
    ensures multiset(SwapAdjacent(s, k)) == multiset(s)
  {
    assert s == s[..k] + [s[k], s[k + 1]] + s[k + 2..];
  }

  /** A swap keeps the number of elements that pass any filter. */
  lemma SwapAdjacentFilterLength<T(!new)>(s: seq<T>, k: nat, p: T -> bool)
    requires k + 1 < |s|
    ensures |Filter(SwapAdjacent(s, k), p)| == |Filter(s, p)|
  {
    var pre, post := s[..k], s[k + 2..];
    assert s == pre + [s[k], s[k + 1]] + post;
    FilterAppend(pre + [s[k], s[k + 1]], post, p);
    FilterAppend(pre, [s[k], s[k + 1]], p);
    FilterAppend(pre + [s[k + 1], s[k]], post, p);
    FilterAppend(pre, [s[k + 1], s[k]], p);
    FilterAppend([s[k]], [s[k + 1]], p);
    FilterAppend([s[k + 1]], [s[k]], p);
  }
}
