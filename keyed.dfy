/**
 * Lists of records identified by a string key (a mod's directory name or path):
 * `Vec::retain(|m| key(m) != k)`, `iter().position(|m| key(m) == k)` and a
 * `HashMap` collected from `(key(m), m)` pairs.
 */
module Keyed {
  import opened Base

  /** The elements whose key is not `k`, in their original order. */
  function Without<T>(xs: seq<T>, key: T -> string, k: string): (r: seq<T>)
    ensures forall i :: 0 <= i < |r| ==> r[i] in xs && key(r[i]) != k
    ensures forall i :: 0 <= i < |xs| && key(xs[i]) != k ==> xs[i] in r
    ensures |r| <= |xs|
  {
    if xs == [] then []
    else if key(xs[0]) == k then Without(xs[1..], key, k)
    else [xs[0]] + Without(xs[1..], key, k)
  }

  predicate HasKey<T>(xs: seq<T>, key: T -> string, k: string)
  {
    exists i :: 0 <= i < |xs| && key(xs[i]) == k
  }

  /** The index of the first element whose key is `k`. */
  function Position<T>(xs: seq<T>, key: T -> string, k: string): (r: Option<nat>)
    ensures r.Some? ==> r.value < |xs| && key(xs[r.value]) == k
    ensures r.Some? ==> forall j :: 0 <= j < r.value ==> key(xs[j]) != k
    ensures r.None? <==> !HasKey(xs, key, k)
  {
    if xs == [] then None
    else if key(xs[0]) == k then Some(0)
    else match Position(xs[1..], key, k)
      case None =>
        assert forall j :: 1 <= j < |xs| ==> xs[j] == xs[1..][j - 1];
        None
      case Some(i) => Some(i + 1)
  }

  /** Replacing an element by one with the same key moves no key. */
  lemma {:induction false} PositionUpdate<T>(xs: seq<T>, key: T -> string, k: string, i: nat, y: T)
    requires i < |xs| && key(y) == key(xs[i])
    ensures Position(xs[i := y], key, k) == Position(xs, key, k)
  {
    if i == 0 {
      assert xs[i := y][1..] == xs[1..];
    } else {
      assert xs[i := y][1..] == xs[1..][i - 1 := y];
      PositionUpdate(xs[1..], key, k, i - 1, y);
    }
  }

  /** Dropping a key distributes over concatenation: the survivors keep their order. */
  lemma {:induction false} WithoutAppend<T>(a: seq<T>, b: seq<T>, key: T -> string, k: string)
    ensures Without(a + b, key, k) == Without(a, key, k) + Without(b, key, k)
  {
    if a != [] {
      var x, y := Without(a[1..], key, k), Without(b, key, k);
      assert (a + b)[0] == a[0] && (a + b)[1..] == a[1..] + b;
      WithoutAppend(a[1..], b, key, k);
      if key(a[0]) != k {
        assert [a[0]] + (x + y) == ([a[0]] + x) + y;
      }
    } else {
      assert a + b == b;
    }
  }

  lemma HasKeyCons<T>(xs: seq<T>, key: T -> string, k: string)
    requires xs != []
    ensures HasKey(xs, key, k) <==> key(xs[0]) == k || HasKey(xs[1..], key, k)
  {
    if HasKey(xs[1..], key, k) {
      var i :| 0 <= i < |xs[1..]| && key(xs[1..][i]) == k;
      assert key(xs[i + 1]) == k;
    }
    if HasKey(xs, key, k) && key(xs[0]) != k {
      var i :| 0 <= i < |xs| && key(xs[i]) == k;
      assert key(xs[1..][i - 1]) == k;
    }
  }

  lemma HasKeyPrefix<T>(xs: seq<T>, key: T -> string, k: string, n: nat)
    requires 0 < n <= |xs|
    ensures HasKey(xs[..n], key, k) <==> HasKey(xs[..n - 1], key, k) || key(xs[n - 1]) == k
  {
    if HasKey(xs[..n - 1], key, k) {
      var i :| 0 <= i < n - 1 && key(xs[..n - 1][i]) == k;
      assert xs[..n][i] == xs[..n - 1][i];
    }
    if HasKey(xs[..n], key, k) && key(xs[n - 1]) != k {
      var i :| 0 <= i < n && key(xs[..n][i]) == k;
      assert xs[..n - 1][i] == xs[..n][i];
    }
  }

  /** The list shrinks exactly when some element carried the key. */
  lemma {:induction false} WithoutShrinks<T>(xs: seq<T>, key: T -> string, k: string)
    ensures |Without(xs, key, k)| < |xs| <==> HasKey(xs, key, k)
    ensures !HasKey(xs, key, k) ==> Without(xs, key, k) == xs
  {
    if xs != [] {
      WithoutShrinks(xs[1..], key, k);
      HasKeyCons(xs, key, k);
      if !HasKey(xs, key, k) {
        assert xs == [xs[0]] + xs[1..];
      }
    }
  }

  /** The `HashMap` collected from `(key(x), x)` for every element: a later element replaces an earlier one. */
  function ByKey<T>(xs: seq<T>, key: T -> string): map<string, T>
  {
    if xs == [] then map[]
    else
      var n := |xs|;
      ByKey(xs[..n - 1], key)[key(xs[n - 1]) := xs[n - 1]]
  }

  /** Every element of the map is filed under its own key. */
  predicate FiledByKey<T>(m: map<string, T>, key: T -> string)
  {
    forall k :: k in m ==> key(m[k]) == k
  }

  /**
   * A key is in the map exactly when some element carries it, and it maps to
   * the last such element; the map is filed by key.
   */
  lemma {:induction false} ByKeyIsLast<T>(xs: seq<T>, key: T -> string, k: string)
    ensures k in ByKey(xs, key) <==> HasKey(xs, key, k)
    ensures k in ByKey(xs, key) ==>
              exists i :: 0 <= i < |xs| && xs[i] == ByKey(xs, key)[k]
                          && key(xs[i]) == k && forall j :: i < j < |xs| ==> key(xs[j]) != k
    ensures FiledByKey(ByKey(xs, key), key)
  {
    if xs != [] {
      var n := |xs|;
      ByKeyIsLast(xs[..n - 1], key, k);
      assert forall i :: 0 <= i < n - 1 ==> xs[..n - 1][i] == xs[i];
      if key(xs[n - 1]) == k {
        assert ByKey(xs, key)[k] == xs[n - 1];
      }
      forall k' | k' in ByKey(xs, key)
        ensures key(ByKey(xs, key)[k']) == k'
      {
        ByKeyIsLast(xs[..n - 1], key, k');
      }
    }
  }

  /** The map built one element at a time, as `collect` does. */
  method CollectByKey<T>(xs: seq<T>, key: T -> string) returns (m: map<string, T>)
    ensures m == ByKey(xs, key)
  {
    m := map[];
    var i := 0;
    while i < |xs|
      invariant 0 <= i <= |xs|
      invariant m == ByKey(xs[..i], key)
    {
      assert xs[..i + 1][..i] == xs[..i];
      m := m[key(xs[i]) := xs[i]];
      i := i + 1;
    }
    assert xs[..i] == xs;
  }
}
