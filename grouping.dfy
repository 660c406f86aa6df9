/**
 * Grouping items into buckets under a string key, and concatenating pages:
 * the specification functions shared by the two groupers of the program
 * (services/fetch.go and main.go), which differ only in how they compute the
 * key and the entry of an item.
 */
module Grouping {
  import opened Text

  /** The concatenation of pages, in page order. */
  function Flatten<T>(pages: seq<seq<T>>): seq<T> {
    if pages == [] then [] else Flatten(pages[..|pages| - 1]) + pages[|pages| - 1]
  }

  /** The sum of the page sizes. */
  function TotalLength<T>(pages: seq<seq<T>>): nat {
    if pages == [] then 0 else TotalLength(pages[..|pages| - 1]) + |pages[|pages| - 1]|
  }

  /** The keys that occur among the items. */
  function KeysOf<T(==)>(xs: seq<T>, key: T -> string): set<string> {
    set x | x in xs :: key(x)
  }

  /** The entries of the items under key `k`, in item order. */
  function Bucket<T, E>(xs: seq<T>, key: T -> string, entry: T -> E, k: string): seq<E> {
    if xs == [] then []
    else
      var last := xs[|xs| - 1];
      Bucket(xs[..|xs| - 1], key, entry, k) + (if key(last) == k then [entry(last)] else [])
  }

  /** The map from each key that occurs to its bucket. */
  function GroupOf<T(==), E>(xs: seq<T>, key: T -> string, entry: T -> E): map<string, seq<E>> {
    map k | k in KeysOf(xs, key) :: Bucket(xs, key, entry, k)
  }

  /** The sum of the sizes of the buckets listed in `ks`. */
  function SumOfSizes<T, E>(xs: seq<T>, key: T -> string, entry: T -> E, ks: seq<string>): nat {
    if ks == [] then 0 else |Bucket(xs, key, entry, ks[0])| + SumOfSizes(xs, key, entry, ks[1..])
  }

  /** Number of times `k` is listed in `ks`. */
  function Listed(ks: seq<string>, k: string): nat {
    if ks == [] then 0 else (if ks[0] == k then 1 else 0) + Listed(ks[1..], k)
  }

  // ---------------------------------------------------------------------------
  // Properties
  // ---------------------------------------------------------------------------

  /** The aggregate of the pages has the sum of their sizes. */
  lemma {:induction false} FlattenLength<T>(pages: seq<seq<T>>)
    ensures |Flatten(pages)| == TotalLength(pages)
  {
    if pages != [] {
      FlattenLength(pages[..|pages| - 1]);
    }
  }

  lemma {:induction false} FlattenAppend<T>(pages: seq<seq<T>>, page: seq<T>)
    ensures Flatten(pages + [page]) == Flatten(pages) + page
  {
    assert (pages + [page])[..|pages|] == pages;
  }

  lemma {:induction false} FlattenConcat<T>(p: seq<seq<T>>, q: seq<seq<T>>)
    ensures Flatten(p + q) == Flatten(p) + Flatten(q)
    decreases |q|
  {
    if q == [] {
      assert p + q == p;
    } else {
      var q' := q[..|q| - 1];
      assert p + q == (p + q') + [q[|q| - 1]];
      FlattenAppend(p + q', q[|q| - 1]);
      FlattenConcat(p, q');
      FlattenAppend(q', q[|q| - 1]);
      assert q == q' + [q[|q| - 1]];
    }
  }

  /** Every item of every page is in the aggregate. */
  lemma {:induction false} FlattenMember<T>(pages: seq<seq<T>>, i: nat, j: nat)
    requires i < |pages| && j < |pages[i]|
    ensures exists k :: 0 <= k < |Flatten(pages)| && Flatten(pages)[k] == pages[i][j]
  {
    var init := pages[..|pages| - 1];
    if i < |pages| - 1 {
      assert init[i] == pages[i];
      FlattenMember(init, i, j);
      var k :| 0 <= k < |Flatten(init)| && Flatten(init)[k] == pages[i][j];
      assert Flatten(pages)[k] == Flatten(init)[k];
    } else {
      assert Flatten(pages)[|Flatten(init)| + j] == pages[i][j];
    }
  }

  /**
   * The aggregate holds the same items whatever order the pages arrive in:
   * only the position of the items depends on it.
   */
  lemma {:induction false} FlattenPermutation<T>(p: seq<seq<T>>, q: seq<seq<T>>)
    requires multiset(p) == multiset(q)
    ensures multiset(Flatten(p)) == multiset(Flatten(q))
    decreases |p|
  {
    if p != [] {
      var last := p[|p| - 1];
      var p' := p[..|p| - 1];
      assert p == p' + [last];
      assert last in multiset(q);
      var j :| 0 <= j < |q| && q[j] == last;
      RemoveAt(q, j);
      assert multiset(p') == multiset(p) - multiset{last};
      FlattenPermutation(p', q[..j] + q[j + 1..]);
      FlattenRemoveAt(q, j);
      FlattenAppend(p', last);
    } else {
      assert q == [];
    }
  }

  /** Taking out the element at `j` takes one occurrence of it out of the multiset. */
  lemma {:induction false} RemoveAt<S>(s: seq<S>, j: nat)
    requires j < |s|
    ensures s == s[..j] + [s[j]] + s[j + 1..]
    ensures multiset(s[..j] + s[j + 1..]) == multiset(s) - multiset{s[j]}
  {
    assert s == s[..j] + [s[j]] + s[j + 1..];
    assert multiset(s) == multiset(s[..j]) + multiset{s[j]} + multiset(s[j + 1..]);
    assert multiset(s[..j] + s[j + 1..]) == multiset(s[..j]) + multiset(s[j + 1..]);
  }

  /** The aggregate without page `j` lacks exactly that page's items. */
  lemma {:induction false} FlattenRemoveAt<T>(q: seq<seq<T>>, j: nat)
    requires j < |q|
    ensures multiset(Flatten(q)) == multiset(Flatten(q[..j] + q[j + 1..])) + multiset(q[j])
  {
    var before, after := Flatten(q[..j]), Flatten(q[j + 1..]);
    assert Flatten(q) == before + q[j] + after by {
      assert q == (q[..j] + [q[j]]) + q[j + 1..];
      FlattenConcat(q[..j] + [q[j]], q[j + 1..]);
      FlattenAppend(q[..j], q[j]);
    }
    FlattenConcat(q[..j], q[j + 1..]);
    MultisetOfMiddle(before, q[j], after);
  }

  /** Taking the middle part out of a sequence takes its elements out of the multiset. */
  lemma MultisetOfMiddle<S>(a: seq<S>, b: seq<S>, c: seq<S>)
    ensures multiset(a + b + c) == multiset(a + c) + multiset(b)
  {
  }

  lemma {:induction false} KeysOfAppend<T>(xs: seq<T>, x: T, key: T -> string)
    ensures KeysOf(xs + [x], key) == KeysOf(xs, key) + {key(x)}
  {
    assert forall y :: y in xs + [x] <==> y in xs || y == x;
  }

  lemma {:induction false} BucketAppend<T, E>(xs: seq<T>, x: T, key: T -> string, entry: T -> E, k: string)
    ensures Bucket(xs + [x], key, entry, k) ==
            Bucket(xs, key, entry, k) + (if key(x) == k then [entry(x)] else [])
  {
    assert (xs + [x])[..|xs|] == xs;
  }

  /**
   * Grouping one more item appends its entry to the bucket of its key,
   * creating the bucket when the key is new.
   */
  lemma {:induction false} GroupOfAppend<T, E>(xs: seq<T>, x: T, key: T -> string, entry: T -> E)
    ensures var m := GroupOf(xs, key, entry);
      GroupOf(xs + [x], key, entry) == m[key(x) := (if key(x) in m then m[key(x)] else []) + [entry(x)]]
  {
    var m := GroupOf(xs, key, entry);
    var m' := m[key(x) := (if key(x) in m then m[key(x)] else []) + [entry(x)]];
    KeysOfAppend(xs, x, key);
    forall k | k in m'
      ensures Bucket(xs + [x], key, entry, k) == m'[k]
    {
      BucketAppend(xs, x, key, entry, k);
      BucketNonEmpty(xs, key, entry, k);
    }
  }

  /** The buckets of two runs of items are those of the first followed by those of the second. */
  lemma {:induction false} BucketConcat<T, E>(xs: seq<T>, ys: seq<T>, key: T -> string, entry: T -> E, k: string)
    ensures Bucket(xs + ys, key, entry, k) == Bucket(xs, key, entry, k) + Bucket(ys, key, entry, k)
    decreases |ys|
  {
    if ys == [] {
      assert xs + ys == xs;
    } else {
      var y := ys[|ys| - 1];
      var ys' := ys[..|ys| - 1];
      assert xs + ys == (xs + ys') + [y];
      assert ys == ys' + [y];
      BucketAppend(xs + ys', y, key, entry, k);
      BucketAppend(ys', y, key, entry, k);
      BucketConcat(xs, ys', key, entry, k);
    }
  }

  /** An entry is in bucket `k` exactly when it is the entry of an item under key `k`. */
  lemma {:induction false} BucketMembership<T, E>(xs: seq<T>, key: T -> string, entry: T -> E, k: string, e: E)
    ensures e in Bucket(xs, key, entry, k) <==> exists i :: 0 <= i < |xs| && key(xs[i]) == k && entry(xs[i]) == e
  {
    if xs != [] {
      var xs' := xs[..|xs| - 1];
      BucketMembership(xs', key, entry, k, e);
      if e in Bucket(xs', key, entry, k) {
        var i :| 0 <= i < |xs'| && key(xs'[i]) == k && entry(xs'[i]) == e;
        assert xs[i] == xs'[i];
      }
      if exists i :: 0 <= i < |xs| && key(xs[i]) == k && entry(xs[i]) == e {
        var i :| 0 <= i < |xs| && key(xs[i]) == k && entry(xs[i]) == e;
        if i < |xs| - 1 {
          assert xs'[i] == xs[i];
        }
      }
    }
  }

  /** A key has a non-empty bucket exactly when some item has that key. */
  lemma {:induction false} BucketNonEmpty<T, E>(xs: seq<T>, key: T -> string, entry: T -> E, k: string)
    ensures |Bucket(xs, key, entry, k)| > 0 <==> k in KeysOf(xs, key)
  {
    if xs != [] {
      var xs' := xs[..|xs| - 1];
      BucketNonEmpty(xs', key, entry, k);
      assert xs == xs' + [xs[|xs| - 1]];
      KeysOfAppend(xs', xs[|xs| - 1], key);
    }
  }

  lemma {:induction false} SumOfSizesAppend<T, E>(xs: seq<T>, x: T, key: T -> string, entry: T -> E, ks: seq<string>)
    ensures SumOfSizes(xs + [x], key, entry, ks) == SumOfSizes(xs, key, entry, ks) + Listed(ks, key(x))
  {
    if ks != [] {
      BucketAppend(xs, x, key, entry, ks[0]);
      SumOfSizesAppend(xs, x, key, entry, ks[1..]);
    }
  }

  lemma {:induction false} ListedOnce(ks: seq<string>, k: string)
    requires Distinct(ks)
    ensures Listed(ks, k) == if k in ks then 1 else 0
  {
    if ks != [] {
      ListedOnce(ks[1..], k);
      if ks[0] == k {
        assert k !in ks[1..];
      }
    }
  }

  /**
   * Grouping is a partition: listing every key once, the bucket sizes add
   * up to the number of items.
   */
  lemma {:induction false} PartitionSizes<T, E>(xs: seq<T>, key: T -> string, entry: T -> E, ks: seq<string>)
    requires Distinct(ks)
    requires forall k :: k in KeysOf(xs, key) ==> k in ks
    ensures SumOfSizes(xs, key, entry, ks) == |xs|
  {
    if xs == [] {
      EmptySums(key, entry, ks);
    } else {
      var xs' := xs[..|xs| - 1];
      var x := xs[|xs| - 1];
      assert xs == xs' + [x];
      KeysOfAppend(xs', x, key);
      PartitionSizes(xs', key, entry, ks);
      SumOfSizesAppend(xs', x, key, entry, ks);
      ListedOnce(ks, key(x));
    }
  }

  lemma {:induction false} EmptySums<T, E>(key: T -> string, entry: T -> E, ks: seq<string>)
    ensures SumOfSizes([], key, entry, ks) == 0
  {
    if ks != [] {
      EmptySums(key, entry, ks[1..]);
    }
  }

  /**
   * What lands in a bucket does not depend on the order of the items, only
   * where it lands in the bucket does.
   */
  lemma {:induction false} BucketPermutation<T, E>(xs: seq<T>, ys: seq<T>, key: T -> string, entry: T -> E, k: string)
    requires multiset(xs) == multiset(ys)
    ensures multiset(Bucket(xs, key, entry, k)) == multiset(Bucket(ys, key, entry, k))
    decreases |xs|
  {
    if xs != [] {
      var x := xs[|xs| - 1];
      var xs' := xs[..|xs| - 1];
      assert xs == xs' + [x];
      assert x in multiset(ys);
      var j :| 0 <= j < |ys| && ys[j] == x;
      RemoveAt(ys, j);
      assert multiset(xs') == multiset(xs) - multiset{x};
      BucketPermutation(xs', ys[..j] + ys[j + 1..], key, entry, k);
      BucketAppend(xs', x, key, entry, k);
      BucketRemoveAt(ys, j, key, entry, k);
    } else {
      assert ys == [];
    }
  }

  /** The bucket without item `j` lacks exactly that item's entry, if it was there. */
  lemma {:induction false} BucketRemoveAt<T, E>(ys: seq<T>, j: nat, key: T -> string, entry: T -> E, k: string)
    requires j < |ys|
    ensures multiset(Bucket(ys, key, entry, k)) ==
      multiset(Bucket(ys[..j] + ys[j + 1..], key, entry, k)) +
      multiset(if key(ys[j]) == k then [entry(ys[j])] else [])
  {
    var before, after := Bucket(ys[..j], key, entry, k), Bucket(ys[j + 1..], key, entry, k);
    var mid: seq<E> := if key(ys[j]) == k then [entry(ys[j])] else [];
    assert Bucket(ys, key, entry, k) == before + mid + after by {
      assert ys == (ys[..j] + [ys[j]]) + ys[j + 1..];
      BucketConcat(ys[..j] + [ys[j]], ys[j + 1..], key, entry, k);
      BucketAppend(ys[..j], ys[j], key, entry, k);
    }
    BucketConcat(ys[..j], ys[j + 1..], key, entry, k);
    MultisetOfMiddle(before, mid, after);
  }

  /** Items in any order have the same keys. */
  lemma {:induction false} KeysOfPermutation<T>(xs: seq<T>, ys: seq<T>, key: T -> string)
    requires multiset(xs) == multiset(ys)
    ensures KeysOf(xs, key) == KeysOf(ys, key)
  {
    forall y ensures y in xs <==> y in ys {
      assert y in xs <==> y in multiset(xs);
      assert y in ys <==> y in multiset(ys);
    }
  }
}
