/** The array operations the screens use: `Array.prototype.filter`, an
    object filled key by key (`Object.fromEntries`, or assignments in a
    `forEach`), and the insertion order of a `Set`. */
module Seqs {

  /** `xs.filter(keep)`: the elements that pass, in their original order. */
  function Filter<T(!new)>(xs: seq<T>, keep: T -> bool): (r: seq<T>)
    ensures |r| <= |xs|
    ensures forall x :: x in r <==> x in xs && keep(x)
  {
    if xs == [] then []
    else (if keep(xs[0]) then [xs[0]] else []) + Filter(xs[1..], keep)
  }

  /** Filtering distributes over concatenation, so the survivors keep their
      relative order. */
  lemma {:induction false} FilterAppend<T(!new)>(a: seq<T>, b: seq<T>, keep: T -> bool)
    ensures Filter(a + b, keep) == Filter(a, keep) + Filter(b, keep)
  {
    if a == [] {
      assert a + b == b;
    } else {
      assert (a + b)[0] == a[0];
      assert (a + b)[1..] == a[1..] + b;
      FilterAppend(a[1..], b, keep);
    }
  }

  /** Filtering one element keeps it or drops it. */
  lemma FilterSingle<T(!new)>(x: T, keep: T -> bool)
    ensures Filter([x], keep) == if keep(x) then [x] else []
  {
    assert [x][1..] == [];
  }

  /** Two tests that agree on every element select the same elements. */
  lemma {:induction false} FilterCongruent<T(!new)>(xs: seq<T>, p: T -> bool, q: T -> bool)
    requires forall x :: x in xs ==> p(x) == q(x)
    ensures Filter(xs, p) == Filter(xs, q)
  {
    if xs != [] {
      FilterCongruent(xs[1..], p, q);
    }
  }

  /** A relation that holds between every earlier and later element of `xs`
      still holds between those of any filter of `xs`. */
  lemma {:induction false} FilterKeepsOrder<T(!new)>(xs: seq<T>, keep: T -> bool, before: (T, T) -> bool)
    requires forall i, j :: 0 <= i < j < |xs| ==> before(xs[i], xs[j])
    ensures forall i, j :: 0 <= i < j < |Filter(xs, keep)| ==>
              before(Filter(xs, keep)[i], Filter(xs, keep)[j])
  {
    if xs != [] {
      FilterKeepsOrder(xs[1..], keep, before);
      var rest := Filter(xs[1..], keep);
      forall i, j | 0 <= i < j < |Filter(xs, keep)|
        ensures before(Filter(xs, keep)[i], Filter(xs, keep)[j])
      {
        if keep(xs[0]) {
          if i == 0 {
            assert Filter(xs, keep)[j] == rest[j - 1];
            assert rest[j - 1] in xs[1..];
          }
        }
      }
    }
  }

  /** An object filled entry by entry, `m[key(x)] = val(x)` for every `x` of
      `xs` in order: the object `Object.fromEntries(xs.map(x => [key(x), val(x)]))`.
      ToMapByKeys and ToMapByLastWins say what it holds. */
  function ToMapBy<T, K, V>(xs: seq<T>, key: T -> K, val: T -> V): map<K, V>
  {
    if xs == [] then map[]
    else ToMapBy(xs[..|xs| - 1], key, val)[key(xs[|xs| - 1]) := val(xs[|xs| - 1])]
  }

  /** An entry appended at the end sets its key. */
  lemma ToMapBySnoc<T, K, V>(xs: seq<T>, x: T, key: T -> K, val: T -> V)
    ensures ToMapBy(xs + [x], key, val) == ToMapBy(xs, key, val)[key(x) := val(x)]
  {
    assert (xs + [x])[..|xs|] == xs;
  }

  /** The keys are exactly the keys of the entries. */
  lemma {:induction false} ToMapByKeys<T, K, V>(xs: seq<T>, key: T -> K, val: T -> V, k: K)
    ensures k in ToMapBy(xs, key, val) <==> exists i :: 0 <= i < |xs| && key(xs[i]) == k
  {
    if xs != [] {
      var init := xs[..|xs| - 1];
      ToMapByKeys(init, key, val, k);
      if exists i :: 0 <= i < |xs| && key(xs[i]) == k {
        var i :| 0 <= i < |xs| && key(xs[i]) == k;
        if i < |init| {
          assert key(init[i]) == k;
        }
      }
      if exists i :: 0 <= i < |init| && key(init[i]) == k {
        var i :| 0 <= i < |init| && key(init[i]) == k;
        assert key(xs[i]) == k;
      }
    }
  }

  /** A key that occurs more than once keeps the value of its last entry. */
  lemma {:induction false} ToMapByLastWins<T, K, V>(xs: seq<T>, key: T -> K, val: T -> V, i: int)
    requires 0 <= i < |xs| && IsLastKey(xs, key, i)
    ensures key(xs[i]) in ToMapBy(xs, key, val)
    ensures ToMapBy(xs, key, val)[key(xs[i])] == val(xs[i])
  {
    var init := xs[..|xs| - 1];
    if i < |xs| - 1 {
      assert key(xs[|xs| - 1]) != key(xs[i]);
      assert IsLastKey(init, key, i) by {
        forall j | i < j < |init| ensures key(init[j]) != key(init[i]) {
          assert init[j] == xs[j];
        }
      }
      ToMapByLastWins(init, key, val, i);
    }
  }

  /** A key that occurs has a last entry. */
  lemma {:induction false} LastKeyExists<T, K>(xs: seq<T>, key: T -> K, k: K)
    requires exists i :: 0 <= i < |xs| && key(xs[i]) == k
    ensures exists i :: 0 <= i < |xs| && key(xs[i]) == k && IsLastKey(xs, key, i)
  {
    var n := |xs| - 1;
    if key(xs[n]) == k {
      assert IsLastKey(xs, key, n);
    } else {
      var init := xs[..n];
      var i0 :| 0 <= i0 < |xs| && key(xs[i0]) == k;
      assert key(init[i0]) == k;
      LastKeyExists(init, key, k);
      var i :| 0 <= i < |init| && key(init[i]) == k && IsLastKey(init, key, i);
      assert key(xs[i]) == k;
      assert IsLastKey(xs, key, i) by {
        forall j | i < j < |xs| ensures key(xs[j]) != key(xs[i]) {
          if j < n {
            assert xs[j] == init[j];
          }
        }
      }
    }
  }

  /** No entry after index `i` carries the same key as entry `i`. */
  ghost predicate IsLastKey<T, K>(xs: seq<T>, key: T -> K, i: int)
    requires 0 <= i < |xs|
  {
    forall j :: i < j < |xs| ==> key(xs[j]) != key(xs[i])
  }

  /** `[...new Set(xs)]`: each element once, where it first occurs. */
  function Dedup<T(==,!new)>(xs: seq<T>): (r: seq<T>)
    ensures forall x :: x in r <==> x in xs
    ensures forall i, j :: 0 <= i < j < |r| ==> r[i] != r[j]
  {
    if xs == [] then []
    else
      var d := Dedup(xs[..|xs| - 1]);
      assert forall x :: x in xs <==> x in xs[..|xs| - 1] || x == xs[|xs| - 1];
      if xs[|xs| - 1] in d then d else d + [xs[|xs| - 1]]
  }

  /** The index of the first occurrence of `x` in `xs`. */
  function FirstIndex<T(==)>(xs: seq<T>, x: T): (i: nat)
    requires x in xs
    ensures i < |xs| && xs[i] == x
    ensures forall j :: 0 <= j < i ==> xs[j] != x
  {
    if xs[0] == x then 0 else 1 + FirstIndex(xs[1..], x)
  }

  /** Appending at the end moves no first occurrence. */
  lemma {:induction false} FirstIndexSnoc<T>(xs: seq<T>, y: T, x: T)
    requires x in xs
    ensures FirstIndex(xs + [y], x) == FirstIndex(xs, x)
  {
    if xs[0] != x {
      assert (xs + [y])[1..] == xs[1..] + [y];
      FirstIndexSnoc(xs[1..], y, x);
    }
  }

  /** The elements of `Dedup(xs)` appear in the order of their first
      occurrences in `xs`. */
  lemma {:induction false} DedupFirstOccurrenceOrder<T(!new)>(xs: seq<T>)
    ensures forall i, j :: 0 <= i < j < |Dedup(xs)| ==>
              FirstIndex(xs, Dedup(xs)[i]) < FirstIndex(xs, Dedup(xs)[j])
  {
    if xs != [] {
      var init, y := xs[..|xs| - 1], xs[|xs| - 1];
      assert xs == init + [y];
      DedupFirstOccurrenceOrder(init);
      var d := Dedup(init);
      forall x | x in d
        ensures FirstIndex(xs, x) == FirstIndex(init, x) < |init|
      {
        FirstIndexSnoc(init, y, x);
      }
      if y in d {
        assert Dedup(xs) == d;
      } else {
        var r := d + [y];
        assert Dedup(xs) == r;
        assert y !in init;
        assert FirstIndex(xs, y) == |init|;
        forall i, j | 0 <= i < j < |r|
          ensures FirstIndex(xs, r[i]) < FirstIndex(xs, r[j])
        {
          assert r[i] == d[i] && r[i] in d;
          if j < |d| {
            assert r[j] == d[j] && r[j] in d;
          }
        }
      }
    }
  }
}
