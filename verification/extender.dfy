/** The cyclic list extender of src/main.rs (`extend_meals`), generic in the
    element type because the extender never looks inside a meal.

    The code clones the input, appends `destination / len - 1` further whole
    copies of the clone's first `len` elements, then appends its first
    `destination % len` elements. Element `i` of the result is therefore
    element `i % len` of the input; the only surprise is that a destination
    shorter than the input is not truncated: the clone is kept whole and
    `destination` more elements follow it. */
module Extender {
  import Modular

  /** `Vec::extend_from_within(lo..hi)`: append a copy of `v[lo..hi]` to `v`. */
  function ExtendFromWithin<T>(v: seq<T>, lo: nat, hi: nat): (r: seq<T>)
    requires lo <= hi <= |v|
    ensures |r| == |v| + (hi - lo)
    ensures r[..|v|] == v
    ensures r[|v|..] == v[lo..hi]
  {
    v + v[lo..hi]
  }

  /** Number of times the body of `for _ in 1..whole` runs: none when `whole`
      is 0 or 1, `whole - 1` otherwise. */
  function LoopIterations(whole: nat): nat
  {
    if whole == 0 then 0 else whole - 1
  }

  /** The loop `for _ in 1..whole { v.extend_from_within(0..len) }`, one
      iteration per recursive step: each step appends a copy of the current
      first `len` elements, which never change. */
  function AppendCopies<T>(v: seq<T>, len: nat, count: nat): (r: seq<T>)
    requires 0 < len <= |v|
    ensures |r| == |v| + count * len
    ensures r[..|v|] == v
    ensures forall i :: |v| <= i < |r| ==> r[i] == v[(i - |v|) % len]
    decreases count
  {
    if count == 0 then v
    else
      var v' := ExtendFromWithin(v, 0, len);
      var r := AppendCopies(v', len, count - 1);
      Modular.MulPred(count, len);
      OneMoreCopy(v, v', r, len);
      r
  }

  /** Proof step of `AppendCopies`: if `v'` is `v` followed by its first `len`
      elements, and `r` repeats those `len` elements after `v'`, then `r`
      repeats them after `v` too. */
  lemma OneMoreCopy<T>(v: seq<T>, v': seq<T>, r: seq<T>, len: nat)
    requires 0 < len <= |v|
    requires v' == v + v[..len]
    requires |v'| <= |r| && r[..|v'|] == v'
    requires forall i :: |v'| <= i < |r| ==> r[i] == v'[(i - |v'|) % len]
    ensures forall i :: |v| <= i < |r| ==> r[i] == v[(i - |v|) % len]
  {
    forall i | |v| <= i < |r|
      ensures r[i] == v[(i - |v|) % len]
    {
      if i < |v'| {
        assert r[i] == v'[i] == v[i - |v|];
        Modular.DivModUnique(i - |v|, len, 0, i - |v|);
      } else {
        var k := (i - |v'|) % len;
        assert r[i] == v'[k] == v[k];
        Modular.ModAddLength(i - |v'|, len);
      }
    }
  }

  /** Length of the extended list: exactly `destination` once the destination
      holds at least one whole copy, otherwise the full input followed by
      `destination` more elements. */
  function ExtendedLength(len: nat, destination: nat): nat
  {
    if destination < len then len + destination else destination
  }

  /** Independent reference: the first `n` elements of the input repeated
      forever. */
  function Cycle<T>(xs: seq<T>, n: nat): (r: seq<T>)
    requires |xs| > 0
  {
    seq(n, i requires 0 <= i < n => xs[i % |xs|])
  }

  /** The cycle grows one element at a time. */
  lemma CycleSnoc<T>(xs: seq<T>, n: nat)
    requires |xs| > 0
    ensures Cycle(xs, n + 1) == Cycle(xs, n) + [xs[n % |xs|]]
  {
  }

  /** `extend_meals` with a non-empty input: clone, loop, then append the
      remainder prefix. */
  function Extend<T>(xs: seq<T>, destination: nat): (r: seq<T>)
    requires |xs| > 0
    ensures destination >= |xs| ==> |r| == destination
    ensures destination < |xs| ==> |r| == |xs| + destination
    ensures |xs| <= |r| && r[..|xs|] == xs
    ensures forall i :: 0 <= i < |r| ==> r[i] == xs[i % |xs|]
  {
    var len := |xs|;
    var whole := destination / len;
    var remainder := destination % len;
    var looped := AppendCopies(xs, len, LoopIterations(whole));
    var r := ExtendFromWithin(looped, 0, remainder);
    LengthAfterLoop(len, destination);
    Modular.MulPred(LoopIterations(whole) + 1, len);
    RemainderAfterCopies(xs, looped, r, LoopIterations(whole) + 1, remainder);
    r
  }

  /** Arithmetic of `extend_meals`'s length: the clone, `whole - 1` loop
      copies (none when `whole` is 0) and the remainder add up to
      `ExtendedLength`. */
  lemma LengthAfterLoop(len: nat, destination: nat)
    requires len > 0
    ensures len + LoopIterations(destination / len) * len + destination % len
         == ExtendedLength(len, destination)
  {
  }

  /** Proof step of `Extend`: a list made of whole copies of `xs`, followed
      by a prefix of its own, still has element `i % |xs|` of `xs` at every
      index `i`. */
  lemma RemainderAfterCopies<T>(xs: seq<T>, looped: seq<T>, r: seq<T>, copies: nat, remainder: nat)
    requires |xs| > 0 && |looped| == copies * |xs| && |xs| <= |looped|
    requires looped[..|xs|] == xs
    requires forall i :: |xs| <= i < |looped| ==> looped[i] == xs[(i - |xs|) % |xs|]
    requires remainder < |xs| && r == looped + looped[..remainder]
    ensures forall i :: 0 <= i < |r| ==> r[i] == xs[i % |xs|]
  {
    var len := |xs|;
    forall i | 0 <= i < |r|
      ensures r[i] == xs[i % len]
    {
      if i < len {
        assert r[i] == looped[i] == xs[i];
        Modular.DivModUnique(i, len, 0, i);
      } else if i < |looped| {
        assert r[i] == looped[i] == xs[(i - len) % len];
        Modular.ModAddLength(i - len, len);
      } else {
        var k := i - |looped|;
        assert r[i] == looped[k] == xs[k];
        Modular.ModAfterCopies(copies, len, k);
        Modular.DivModUnique(k, len, 0, k);
      }
    }
  }

  /** The extender and the reference cycle agree on every input. */
  lemma ExtendIsCycle<T>(xs: seq<T>, destination: nat)
    requires |xs| > 0
    ensures Extend(xs, destination) == Cycle(xs, ExtendedLength(|xs|, destination))
  {
  }

  /** Extending to exactly the input's length returns the input unchanged
      (one whole copy, empty remainder). */
  lemma ExtendToOwnLength<T>(xs: seq<T>)
    requires |xs| > 0
    ensures Extend(xs, |xs|) == xs
  {
  }

  /** A destination below the input length is not truncated: the whole input
      is kept and the first `destination` elements follow it. */
  lemma ShortDestinationKeepsInput<T>(xs: seq<T>, destination: nat)
    requires |xs| > 0 && destination < |xs|
    ensures Extend(xs, destination) == xs + xs[..destination]
  {
    var r := Extend(xs, destination);
    forall i | |xs| <= i < |r|
      ensures r[i] == (xs + xs[..destination])[i]
    {
      Modular.ModAfterCopies(1, |xs|, i - |xs|);
    }
  }

  /** The expectation written next to the demonstration call: a three-element
      list extended to 16 repeats 1, 2, 3 and ends on 1. */
  lemma DemonstrationPattern()
    ensures Extend([1, 2, 3], 16) == [1, 2, 3, 1, 2, 3, 1, 2, 3, 1, 2, 3, 1, 2, 3, 1]
  {
    ExtendIsCycle([1, 2, 3], 16);
  }

  /** One more pass of the loop appends one more copy of the first `len`
      elements at the end. */
  lemma {:induction false} AppendCopiesSnoc<T>(v: seq<T>, len: nat, count: nat)
    requires 0 < len <= |v|
    ensures AppendCopies(v, len, count + 1) == AppendCopies(v, len, count) + v[..len]
    decreases count
  {
    var v' := ExtendFromWithin(v, 0, len);
    if count > 0 {
      AppendCopiesSnoc(v', len, count - 1);
      assert v'[..len] == v[..len];
    }
  }

  /** The loop of `extend_meals`, written imperatively: `cloned` grows by one
      whole copy per iteration, then takes the remainder prefix. It builds
      exactly the list `Extend` describes, and so the reference cycle. */
  method ExtendLoop<T>(meals: seq<T>, destination: nat) returns (cloned: seq<T>)
    requires |meals| > 0
    ensures cloned == Extend(meals, destination)
    ensures |cloned| == ExtendedLength(|meals|, destination)
    ensures cloned == Cycle(meals, |cloned|)
  {
    cloned := meals;
    var len := |cloned|;
    var whole := destination / len;
    var remainder := destination % len;
    var iterations: nat := 0;
    while iterations < LoopIterations(whole)
      invariant iterations <= LoopIterations(whole)
      invariant cloned == AppendCopies(meals, len, iterations)
    {
      AppendCopiesSnoc(meals, len, iterations);
      cloned := cloned + cloned[0..len];
      iterations := iterations + 1;
    }
    cloned := cloned + cloned[0..remainder];
    ExtendIsCycle(meals, destination);
  }
}
