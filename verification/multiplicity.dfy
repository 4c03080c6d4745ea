/** How often each input position occurs in the extended list. The extender
    never inspects its elements, so running it on the list of positions
    `[0, 1, ..., len - 1]` tells, for every input, which input position each
    output element was copied from; counting occurrences there counts copies. */
module Multiplicity {
  import Modular
  import Extender

  /** The input positions `0, 1, ..., len - 1`, in order. */
  function Positions(len: nat): (p: seq<int>)
    ensures |p| == len
    ensures forall j :: 0 <= j < len ==> p[j] == j
  {
    seq(len, j => j)
  }

  /** The extender copies positions and elements alike: element `i` of an
      extended list is the input element whose position sits at index `i` of
      the extended position list. */
  lemma CopiesFollowPositions<T>(xs: seq<T>, destination: nat, i: nat)
    requires |xs| > 0 && i < |Extender.Extend(xs, destination)|
    ensures var p := Extender.Extend(Positions(|xs|), destination);
      |p| == |Extender.Extend(xs, destination)|
      && 0 <= p[i] < |xs|
      && Extender.Extend(xs, destination)[i] == xs[p[i]]
  {
  }

  /** Number of indices below `n` whose residue modulo `len` is `j`. */
  function ResidueCount(n: nat, len: nat, j: nat): nat
    requires len > 0
  {
    if n == 0 then 0
    else ResidueCount(n - 1, len, j) + (if (n - 1) % len == j then 1 else 0)
  }

  /** Among the first `n` indices, residue `j` occurs once per whole turn of
      `len` indices, plus once more when `j` falls in the final partial turn. */
  lemma {:induction false} ResidueCountClosedForm(n: nat, len: nat, j: nat)
    requires j < len
    ensures ResidueCount(n, len, j) == n / len + (if j < n % len then 1 else 0)
  {
    if n > 0 {
      ResidueCountClosedForm(n - 1, len, j);
      Modular.DivModStep(n - 1, len);
    }
  }

  /** In the first `n` cyclic elements over the positions, position `j`
      occurs exactly as often as indices with residue `j`. */
  lemma {:induction false} CycleMultiplicity(len: nat, n: nat, j: nat)
    requires len > 0
    ensures multiset(Extender.Cycle(Positions(len), n))[j] == ResidueCount(n, len, j)
  {
    if n > 0 {
      var p := Positions(len);
      var k := (n - 1) % len;
      var before, after := Extender.Cycle(p, n - 1), Extender.Cycle(p, n);
      Extender.CycleSnoc(p, n - 1);
      assert after == before + [k];
      CountAfterAppend(before, k, j);
      CycleMultiplicity(len, n - 1, j);
      assert ResidueCount(n, len, j) == ResidueCount(n - 1, len, j) + (if k == j then 1 else 0);
    } else {
      assert Extender.Cycle(Positions(len), 0) == [];
    }
  }

  /** Appending one element adds one occurrence of it and of nothing else. */
  lemma CountAfterAppend(s: seq<int>, x: int, j: int)
    ensures multiset(s + [x])[j] == multiset(s)[j] + (if x == j then 1 else 0)
  {
    assert multiset(s + [x]) == multiset(s) + multiset{x};
  }

  /** Input position `j` occurs in the extended list once per whole turn of
      the extended length, plus once when it lies in the trailing partial
      turn. With a destination of at least one whole copy this is
      `destination / len` times, plus one when `j < destination % len`; with
      a shorter destination it is once, plus one when `j < destination`. */
  lemma PositionMultiplicity(len: nat, destination: nat, j: nat)
    requires 0 < len && j < len
    ensures var count := multiset(Extender.Extend(Positions(len), destination))[j];
      && (destination >= len ==>
            count == destination / len + (if j < destination % len then 1 else 0))
      && (destination < len ==>
            count == 1 + (if j < destination then 1 else 0))
  {
    var n := Extender.ExtendedLength(len, destination);
    Extender.ExtendIsCycle(Positions(len), destination);
    CycleMultiplicity(len, n, j);
    ResidueCountClosedForm(n, len, j);
    if destination < len {
      assert n == 1 * len + destination;
      Modular.DivModUnique(n, len, 1, destination);
    }
  }
}
