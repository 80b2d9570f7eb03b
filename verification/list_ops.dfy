/** Sequence operations with the meaning of the .NET `List<T>` calls the pool relies on. */
module ListOps {

  /** True if no element occurs twice in `xs`. */
  predicate Unique<T(==)>(xs: seq<T>) {
    forall x | x in multiset(xs) :: multiset(xs)[x] == 1
  }

  /** `List<T>.Remove(x)`: drops the first occurrence of `x` and keeps the order of the rest;
      a list without `x` is left as it is. */
  function RemoveFirst<T(==,!new)>(xs: seq<T>, x: T): (r: seq<T>)
    ensures x !in xs ==> r == xs
    ensures x in xs ==> |r| == |xs| - 1
    ensures forall y | y != x :: y in r <==> y in xs
    ensures forall i | 0 <= i < |r| :: r[i] in xs
  {
    if |xs| == 0 then xs
    else if xs[0] == x then
      assert xs == [xs[0]] + xs[1..];
      xs[1..]
    else
      assert xs == [xs[0]] + xs[1..];
      [xs[0]] + RemoveFirst(xs[1..], x)
  }

  /** `RemoveFirst` takes away exactly one copy of `x`, or nothing when there is none. */
  lemma {:induction false} RemoveFirstMultiset<T(!new)>(xs: seq<T>, x: T)
    ensures multiset(RemoveFirst(xs, x)) == multiset(xs) - multiset{x}
  {
    if |xs| > 0 {
      assert xs == [xs[0]] + xs[1..];
      if xs[0] != x {
        RemoveFirstMultiset(xs[1..], x);
      }
    }
  }

  /** `List<T>.RemoveAt(i)` takes away exactly one copy of the element at `i`. */
  lemma RemoveAtMultiset<T>(xs: seq<T>, i: nat)
    requires i < |xs|
    ensures multiset(xs[..i] + xs[i + 1..]) == multiset(xs) - multiset{xs[i]}
    ensures xs[i] in xs
  {
    assert xs == xs[..i] + [xs[i]] + xs[i + 1..];
  }

  /** Removing the element just appended to a list that did not hold it gives the list back. */
  lemma {:induction false} RemoveFirstOfAppended<T(!new)>(xs: seq<T>, x: T)
    requires x !in xs
    ensures RemoveFirst(xs + [x], x) == xs
  {
    if |xs| == 0 {
    } else {
      assert (xs + [x])[1..] == xs[1..] + [x];
      RemoveFirstOfAppended(xs[1..], x);
    }
  }

  /** When `i` is the first position holding `x`, `List<T>.Remove(x)` is `RemoveAt(i)`. */
  lemma {:induction false} RemoveFirstAt<T(!new)>(xs: seq<T>, i: nat)
    requires i < |xs|
    requires forall j | 0 <= j < i :: xs[j] != xs[i]
    ensures RemoveFirst(xs, xs[i]) == xs[..i] + xs[i + 1..]
  {
    if i == 0 {
      assert xs[..0] + xs[1..] == xs[1..];
    } else {
      var tail := xs[1..];
      assert tail[i - 1] == xs[i];
      forall j | 0 <= j < i - 1
        ensures tail[j] != tail[i - 1]
      {
        assert tail[j] == xs[j + 1];
      }
      RemoveFirstAt(tail, i - 1);
      calc {
        RemoveFirst(xs, xs[i]);
        [xs[0]] + RemoveFirst(tail, xs[i]);
        [xs[0]] + (tail[..i - 1] + tail[i..]);
        { assert tail[..i - 1] == xs[1..i]; assert tail[i..] == xs[i + 1..]; }
        [xs[0]] + (xs[1..i] + xs[i + 1..]);
        { assert [xs[0]] + xs[1..i] == xs[..i]; }
        xs[..i] + xs[i + 1..];
      }
    }
  }

  /** Removing one occurrence leaves a list without duplicates free of that element. */
  lemma RemoveFirstOfUnique<T(!new)>(xs: seq<T>, x: T)
    requires Unique(xs)
    ensures x !in RemoveFirst(xs, x)
    ensures Unique(RemoveFirst(xs, x))
  {
    var r := RemoveFirst(xs, x);
    RemoveFirstMultiset(xs, x);
    if x in xs {
      assert multiset(xs)[x] == 1;
    }
    assert multiset(r)[x] == 0;
    forall y | y in multiset(r)
      ensures multiset(r)[y] == 1
    {
      assert y in multiset(xs);
    }
  }

  /** Appending an element the list does not hold keeps it free of duplicates. */
  lemma UniqueAppend<T>(xs: seq<T>, x: T)
    requires Unique(xs) && x !in xs
    ensures Unique(xs + [x])
  {
    assert multiset(xs + [x]) == multiset(xs) + multiset{x};
  }

  /** Both halves of a list without duplicates are without duplicates, and share nothing. */
  lemma UniqueSplit<T>(xs: seq<T>, ys: seq<T>)
    requires Unique(xs + ys)
    ensures Unique(xs) && Unique(ys)
    ensures forall x | x in xs :: x !in ys
  {
    var m := multiset(xs + ys);
    assert m == multiset(xs) + multiset(ys);
    forall x | x in multiset(xs)
      ensures multiset(xs)[x] == 1
    {
      assert x in m;
    }
    forall y | y in multiset(ys)
      ensures multiset(ys)[y] == 1
    {
      assert y in m;
    }
    forall x | x in xs
      ensures x !in ys
    {
      assert x in multiset(xs);
      assert x in m;
    }
  }

  /** Appending the head of a list and then its tail appends the whole list. */
  lemma AppendHeadThenTail<T>(a: seq<T>, xs: seq<T>)
    requires |xs| > 0
    ensures (a + [xs[0]]) + xs[1..] == a + xs
  {
    assert xs == [xs[0]] + xs[1..];
  }

  /** The elements of a sequence. */
  function Elements<T>(xs: seq<T>): set<T> {
    set x | x in xs
  }

  /** Deleting one key and then the elements of a list deletes the elements of the longer
      list. */
  lemma MapMinusStep<K, V>(d: map<K, V>, k: K, ks: seq<K>)
    ensures (d - {k}) - Elements(ks) == d - Elements([k] + ks)
  {
    assert Elements([k] + ks) == {k} + Elements(ks);
  }

  /** Deleting the elements of the empty list deletes nothing. */
  lemma MapMinusNone<K, V>(d: map<K, V>, ks: seq<K>)
    requires ks == []
    ensures d - Elements(ks) == d
  {
    assert Elements(ks) == {};
  }

  /** A suffix of a sequence is its first element followed by the next suffix. */
  lemma SuffixSplit<T>(xs: seq<T>, i: nat)
    requires i < |xs|
    ensures xs[i..] == [xs[i]] + xs[i + 1..]
    ensures xs[i..][1..] == xs[i + 1..]
    ensures forall x :: x in xs[i..] <==> x == xs[i] || x in xs[i + 1..]
  {
    assert xs[i..] == [xs[i]] + xs[i + 1..];
  }

  /** The suffix from 0 is the whole sequence. */
  lemma SuffixZero<T>(xs: seq<T>)
    ensures xs[0..] == xs
  {
  }

  /** `Dictionary<K, V>.Add`: inserting a key that is already present throws, so callers must
      show the key is absent. */
  function DictionaryAdd<K, V>(d: map<K, V>, k: K, v: V): map<K, V>
    requires k !in d
  {
    d[k := v]
  }
}
