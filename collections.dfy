/** Sequence helpers shared by the game engine: the key order of a JavaScript `Map`
    is kept as a sequence without duplicates next to the map itself. */
module Collections {

  ghost predicate NoDuplicates<T>(s: seq<T>) {
    forall i, j :: 0 <= i < j < |s| ==> s[i] != s[j]
  }

  /** `s` with every occurrence of `x` removed, the rest in order (what `Map.delete`
      does to the iteration order). */
  function Without<T(==, !new)>(s: seq<T>, x: T): (r: seq<T>)
    ensures forall y :: y in r <==> y in s && y != x
    ensures NoDuplicates(s) ==> NoDuplicates(r)
    ensures x !in s ==> r == s
  {
    if s == [] then []
    else if s[0] == x then Without(s[1..], x)
    else
      var rest := Without(s[1..], x);
      assert NoDuplicates(s) ==> NoDuplicates(s[1..]) && s[0] !in rest by {
        if NoDuplicates(s) {
          assert forall j :: 0 <= j < |s| - 1 ==> s[1..][j] == s[j + 1];
        }
      }
      [s[0]] + rest
  }

  /** Removing `x` from a concatenation removes it from each part and keeps the
      parts in order; with `WithoutSingleton` this says that `Without` keeps every
      other element, in its original order. */
  lemma {:induction false} WithoutAppend<T(!new)>(a: seq<T>, b: seq<T>, x: T)
    ensures Without(a + b, x) == Without(a, x) + Without(b, x)
  {
    if a == [] {
      assert a + b == b;
    } else {
      var h := if a[0] == x then [] else [a[0]];
      calc {
        Without(a + b, x);
        { assert a + b == [a[0]] + (a[1..] + b); }
        Without([a[0]] + (a[1..] + b), x);
        { WithoutCons(a[0], a[1..] + b, x); }
        h + Without(a[1..] + b, x);
        { WithoutAppend(a[1..], b, x); }
        h + (Without(a[1..], x) + Without(b, x));
        (h + Without(a[1..], x)) + Without(b, x);
        { WithoutCons(a[0], a[1..], x); assert a == [a[0]] + a[1..]; }
        Without(a, x) + Without(b, x);
      }
    }
  }

  /** Removing `x` from `[y] + s` decides on `y` and removes it from `s`. */
  lemma WithoutCons<T(!new)>(y: T, s: seq<T>, x: T)
    ensures Without([y] + s, x) == (if y == x then [] else [y]) + Without(s, x)
  {
    assert ([y] + s)[0] == y && ([y] + s)[1..] == s;
  }

  /** A single element is dropped exactly when it is `x`. */
  lemma WithoutSingleton<T(!new)>(y: T, x: T)
    ensures Without([y], x) == if y == x then [] else [y]
  {
    assert [y][1..] == [];
  }

  /** A sequence without duplicates has as many distinct elements as entries. */
  lemma {:induction false} DistinctCardinality<T>(s: seq<T>)
    requires NoDuplicates(s)
    ensures |set x | x in s| == |s|
  {
    if s != [] {
      DistinctCardinality(s[1..]);
      assert (set x | x in s) == {s[0]} + (set x | x in s[1..]);
      assert s[0] !in s[1..];
    }
  }

  /** Sequences with the same prefix are equal exactly when what follows it is. */
  lemma AppendCancel<T>(h: seq<T>, x: seq<T>, y: seq<T>)
    requires h + x == h + y
    ensures x == y
  {
    assert x == (h + x)[|h|..];
    assert y == (h + y)[|h|..];
  }

  /** The values of `m` at `keys`, in the order of `keys`. */
  function ValuesAt<K, V>(m: map<K, V>, keys: seq<K>): (r: seq<V>)
    requires forall k :: k in keys ==> k in m
    ensures |r| == |keys|
    ensures forall i :: 0 <= i < |keys| ==> r[i] == m[keys[i]]
  {
    seq(|keys|, i requires 0 <= i < |keys| && keys[i] in m => m[keys[i]])
  }
}
