/** The occurrence weight of a motif (occWeight in wordIntegerIndexing.py):
    the number of leaf elements two mapping levels below the motif. A Python
    dict is insertion-ordered; each level is modelled as the sequence of its
    (key, value) entries, so iterating the keys and looking each one up is
    iterating the entries. */
module Occurrence {

  /** Second level: key -> list of leaves. */
  type Inner<K2, L> = seq<(K2, seq<L>)>

  /** What the pickled dictionary holds for one motif: key -> second level. */
  type Datum<K1, K2, L> = seq<(K1, Inner<K2, L>)>

  /** The number of leaves in a second-level mapping, summed entry by entry. */
  function InnerLeaves<K2, L>(inner: Inner<K2, L>): nat
  {
    if inner == [] then 0
    else InnerLeaves(inner[..|inner| - 1]) + |inner[|inner| - 1].1|
  }

  /** The number of leaves two levels below a motif, summed entry by entry. */
  function Leaves<K1, K2, L>(datum: Datum<K1, K2, L>): nat
  {
    if datum == [] then 0
    else Leaves(datum[..|datum| - 1]) + InnerLeaves(datum[|datum| - 1].1)
  }

  /** Every leaf of a second-level mapping, in order. */
  function InnerElements<K2, L>(inner: Inner<K2, L>): seq<L>
  {
    if inner == [] then [] else inner[0].1 + InnerElements(inner[1..])
  }

  /** Every leaf two levels below a motif, in iteration order. */
  function Elements<K1, K2, L>(datum: Datum<K1, K2, L>): seq<L>
  {
    if datum == [] then [] else InnerElements(datum[0].1) + Elements(datum[1..])
  }

  /** occWeight((k, datum)): nested loops adding len(datum[o][_o]); k is unused. */
  method OccWeight<K, K1, K2, L>(data: (K, Datum<K1, K2, L>)) returns (n: nat)
    ensures n == Leaves(data.1)
    ensures n == |Elements(data.1)|
    ensures data.1 == [] ==> n == 0
  {
    var datum := data.1;
    n := 0;
    var i := 0;
    while i < |datum|
      invariant 0 <= i <= |datum|
      invariant n == Leaves(datum[..i])
    {
      var inner := datum[i].1;
      var j := 0;
      while j < |inner|
        invariant 0 <= j <= |inner|
        invariant n == Leaves(datum[..i]) + InnerLeaves(inner[..j])
      {
        assert inner[..j + 1][..j] == inner[..j];
        n := n + |inner[j].1|;
        j := j + 1;
      }
      assert inner[..j] == inner;
      assert datum[..i + 1][..i] == datum[..i];
      i := i + 1;
    }
    assert datum[..i] == datum;
    LeavesCountsElements(datum);
  }

  lemma {:induction false} InnerElementsSnoc<K2, L>(inner: Inner<K2, L>, k: K2, leaves: seq<L>)
    ensures InnerElements(inner + [(k, leaves)]) == InnerElements(inner) + leaves
  {
    if inner == [] {
      assert [] + [(k, leaves)] == [(k, leaves)];
    } else {
      assert (inner + [(k, leaves)])[1..] == inner[1..] + [(k, leaves)];
      InnerElementsSnoc(inner[1..], k, leaves);
    }
  }

  lemma {:induction false} ElementsSnoc<K1, K2, L>(datum: Datum<K1, K2, L>, k: K1, inner: Inner<K2, L>)
    ensures Elements(datum + [(k, inner)]) == Elements(datum) + InnerElements(inner)
  {
    if datum == [] {
      assert [] + [(k, inner)] == [(k, inner)];
    } else {
      assert (datum + [(k, inner)])[1..] == datum[1..] + [(k, inner)];
      ElementsSnoc(datum[1..], k, inner);
    }
  }

  /** The per-entry leaf count counts every leaf of a second-level mapping. */
  lemma {:induction false} InnerLeavesCountsElements<K2, L>(inner: Inner<K2, L>)
    ensures InnerLeaves(inner) == |InnerElements(inner)|
  {
    if inner != [] {
      var front := inner[..|inner| - 1];
      InnerLeavesCountsElements(front);
      assert front + [inner[|inner| - 1]] == inner;
      InnerElementsSnoc(front, inner[|inner| - 1].0, inner[|inner| - 1].1);
    }
  }

  /** The occurrence weight is the number of leaf elements two levels down. */
  lemma {:induction false} LeavesCountsElements<K1, K2, L>(datum: Datum<K1, K2, L>)
    ensures Leaves(datum) == |Elements(datum)|
  {
    if datum != [] {
      var front := datum[..|datum| - 1];
      LeavesCountsElements(front);
      InnerLeavesCountsElements(datum[|datum| - 1].1);
      assert front + [datum[|datum| - 1]] == datum;
      ElementsSnoc(front, datum[|datum| - 1].0, datum[|datum| - 1].1);
    }
  }

  /** A motif seen in two sub-keys with 3 and 5 occurrences weighs 8. */
  lemma WeightExample()
    ensures Leaves([("genome", [("contig1", [10, 20, 30]), ("contig2", [1, 2, 3, 4, 5])])]) == 8
  {
    var inner: Inner<string, int> := [("contig1", [10, 20, 30]), ("contig2", [1, 2, 3, 4, 5])];
    assert inner[..1][..0] == [];
    var datum: Datum<string, string, int> := [("genome", inner)];
    assert datum[..0] == [];
    assert InnerLeaves(inner[..1]) == 3;
    assert InnerLeaves(inner) == 8;
  }
}
