/** The bag of everything the elements of a sequence contribute, and how it reacts to edits. */
module Bags {
  function Gather<A, T(==)>(xs: seq<A>, f: A -> multiset<T>): multiset<T> {
    if xs == [] then multiset{} else f(xs[0]) + Gather(xs[1..], f)
  }

  lemma {:induction false} GatherAppend<A, T>(xs: seq<A>, ys: seq<A>, f: A -> multiset<T>)
    ensures Gather(xs + ys, f) == Gather(xs, f) + Gather(ys, f)
  {
    if xs == [] {
      assert xs + ys == ys;
    } else {
      assert (xs + ys)[1..] == xs[1..] + ys;
      GatherAppend(xs[1..], ys, f);
    }
  }

  /** Taking out one element takes out exactly its contribution. */
  lemma GatherRemove<A, T>(xs: seq<A>, i: nat, f: A -> multiset<T>)
    requires i < |xs|
    ensures Gather(xs, f) == Gather(xs[..i] + xs[i+1..], f) + f(xs[i])
  {
    assert xs == xs[..i] + xs[i..];
    assert xs[i..][1..] == xs[i+1..];
    assert Gather(xs[i..], f) == f(xs[i]) + Gather(xs[i+1..], f);
    GatherAppend(xs[..i], xs[i..], f);
    GatherAppend(xs[..i], xs[i+1..], f);
    hide Gather;
  }

  /** Overwriting one element exchanges its old contribution for the new one. */
  lemma GatherUpdate<A, T>(xs: seq<A>, i: nat, x: A, f: A -> multiset<T>)
    requires i < |xs|
    ensures Gather(xs[i := x], f) + f(xs[i]) == Gather(xs, f) + f(x)
  {
    GatherRemove(xs, i, f);
    var ys := xs[i := x];
    GatherRemove(ys, i, f);
    assert ys[..i] == xs[..i] && ys[i+1..] == xs[i+1..];
  }

  /** A value is in the bag exactly when some element contributes it. */
  lemma {:induction false} GatherHas<A, T>(xs: seq<A>, f: A -> multiset<T>, t: T)
    ensures t in Gather(xs, f) <==> exists i :: 0 <= i < |xs| && t in f(xs[i])
  {
    if xs != [] {
      GatherHas(xs[1..], f, t);
      if t in Gather(xs[1..], f) {
        var i :| 0 <= i < |xs[1..]| && t in f(xs[1..][i]);
        assert t in f(xs[i+1]);
      }
      if i :| 0 < i < |xs| && t in f(xs[i]) {
        assert xs[1..][i-1] == xs[i];
      }
    }
  }

  /** When no value is contributed twice, two different elements never contribute the same one. */
  lemma GatherTwice<A, T>(xs: seq<A>, i: nat, j: nat, f: A -> multiset<T>, t: T)
    requires i < j < |xs| && t in f(xs[i]) && t in f(xs[j])
    ensures Gather(xs, f)[t] >= 2
  {
    GatherRemove(xs, i, f);
    var ys := xs[..i] + xs[i+1..];
    assert ys[j-1] == xs[j];
    GatherHas(ys, f, t);
  }
}
