/** Optional values, standing in for Python's `None` and for `dict.get`. */
module Results {

  datatype Option<+T> = None | Some(value: T) {

    /** The wrapped value, or `default` when there is none (`dict.get(k, default)`). */
    function GetOr(default: T): T {
      match this
      case Some(v) => v
      case None => default
    }
  }

  /** `m.get(k)`: the value stored under `k`, if any. */
  function Lookup<K, V>(m: map<K, V>, k: K): (r: Option<V>)
    ensures r.Some? <==> k in m
    ensures r.Some? ==> r.value == m[k]
  {
    if k in m then Some(m[k]) else None
  }

  /** `[f(x) for x in xs]`. */
  function MapSeq<A, B>(xs: seq<A>, f: A -> B): (r: seq<B>)
    ensures |r| == |xs|
    ensures forall i :: 0 <= i < |xs| ==> r[i] == f(xs[i])
  {
    seq(|xs|, i requires 0 <= i < |xs| => f(xs[i]))
  }

  /** The present results of `f` over `xs`, in order (a comprehension
      `[y for x in xs if (y := f(x)) is not None]`). */
  function Present<A, B>(xs: seq<A>, f: A -> Option<B>): (r: seq<B>)
    ensures |r| <= |xs|
    ensures forall k :: 0 <= k < |r| ==> exists i :: 0 <= i < |xs| && f(xs[i]) == Some(r[k])
    ensures forall i :: 0 <= i < |xs| && f(xs[i]).Some? ==> f(xs[i]).value in r
  {
    if |xs| == 0 then []
    else
      var rest := Present(xs[1..], f);
      assert forall i :: 1 <= i < |xs| ==> xs[i] == xs[1..][i - 1];
      match f(xs[0])
      case None => rest
      case Some(y) => [y] + rest
  }

  /** A prefix grows by the next element. */
  lemma PrefixStep<T>(xs: seq<T>, i: nat)
    requires i < |xs|
    ensures xs[..i + 1] == xs[..i] + [xs[i]]
  {
  }

  /** The pieces from position `k` on, laid end to end. */
  function Flatten<T>(xs: seq<seq<T>>, k: nat): seq<T>
    requires k <= |xs|
    decreases |xs| - k
  {
    if k == |xs| then [] else xs[k] + Flatten(xs, k + 1)
  }

  /** Empty pieces add nothing. */
  lemma {:induction false} FlattenSkip<T>(xs: seq<seq<T>>, a: nat, e: nat)
    requires a <= e <= |xs|
    requires forall k :: a <= k < e ==> xs[k] == []
    ensures Flatten(xs, a) == Flatten(xs, e)
    decreases e - a
  {
    if a < e {
      assert Flatten(xs, a) == [] + Flatten(xs, a + 1);
      FlattenSkip(xs, a + 1, e);
    }
  }

  /** What the later pieces give is a suffix of what the earlier ones give. */
  lemma {:induction false} FlattenSuffix<T>(xs: seq<seq<T>>, a: nat, k: nat)
    requires a <= k <= |xs|
    ensures exists x :: Flatten(xs, a) == x + Flatten(xs, k)
    decreases k - a
  {
    if a == k {
      assert Flatten(xs, a) == [] + Flatten(xs, k);
    } else {
      FlattenSuffix(xs, a + 1, k);
      var x :| Flatten(xs, a + 1) == x + Flatten(xs, k);
      ConcatAssoc(xs[a], x, Flatten(xs, k));
    }
  }

  /** Concatenation is associative. */
  lemma ConcatAssoc<T>(a: seq<T>, b: seq<T>, c: seq<T>)
    ensures a + (b + c) == (a + b) + c
  {
  }

  /** Keeping the first `i` elements of `s` and then producing `mid` and
      `rest` lays the three end to end. */
  lemma Splice<T>(s: seq<T>, i: nat, mid: seq<T>, rest: seq<T>, whole: seq<T>, tail: seq<T>)
    requires i <= |s|
    requires whole == s[0..i] + tail && tail == mid + rest
    ensures whole == s[..i] + mid + rest
  {
    assert s[0..i] == s[..i];
  }

  /** A value at two positions is counted at least twice. */
  lemma CountTwice<T>(s: seq<T>, i: nat, j: nat)
    requires i < j < |s|
    ensures s[i] == s[j] ==> multiset(s)[s[i]] >= 2
  {
    assert s == s[..j] + s[j..];
    assert s[i] == s[..j][i];
    assert s[j] == s[j..][0];
  }

  lemma PrefixAll<T>(xs: seq<T>)
    ensures xs[..|xs|] == xs
  {
  }
}
