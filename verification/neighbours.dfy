/** The scan over the nearest-neighbour query results: which results count as
    connections, in which order, and with which preview. */
module Neighbours {
  import opened Wrappers
  import opened Seqs

  /** A result counts as a connection when its distance is strictly below this. */
  const Threshold: real := 0.25
  /** Number of document characters shown in a neighbour's preview. */
  const PreviewLength: nat := 100
  const Ellipsis := "..."

  /** The first (and only) row of the vector store's answer to the query:
      parallel lists of ids, distances and documents. The store computes the
      distances; here they are only compared with the threshold. */
  datatype QueryResult = QueryResult(ids: seq<string>, distances: seq<real>, documents: seq<string>)

  /** A result that became a connection: its id and the title its node gets. */
  datatype Neighbour = Neighbour(id: string, title: string)

  /** Python's IndexError when `ids` or `documents` is shorter than `distances`. */
  datatype SelectError = IndexOutOfRange(index: nat)

  /** `documents[i][:100] + "..."`. */
  function Preview(doc: string): (title: string)
    ensures |title| == Min(|doc|, PreviewLength) + |Ellipsis| <= PreviewLength + |Ellipsis|
    ensures title[..|title| - |Ellipsis|] == doc[..|title| - |Ellipsis|]
    ensures title[|title| - |Ellipsis|..] == Ellipsis
    // a document of at most 100 characters can be read back from its preview
    ensures |doc| <= PreviewLength ==> title[..|title| - |Ellipsis|] == doc
  {
    doc[..Min(|doc|, PreviewLength)] + Ellipsis
  }

  /** Indices `j >= i` of results whose distance is strictly below the
      threshold, in increasing order. */
  function QualifyingFrom(distances: seq<real>, i: nat): (q: seq<nat>)
    decreases |distances| - i
    ensures forall a :: 0 <= a < |q| ==> i <= q[a]
    ensures forall j :: j in q <==> i <= j < |distances| && distances[j] < Threshold
    ensures forall a, b :: 0 <= a < b < |q| ==> q[a] < q[b]
  {
    if i >= |distances| then []
    else if distances[i] < Threshold then [i] + QualifyingFrom(distances, i + 1)
    else QualifyingFrom(distances, i + 1)
  }

  /** The indices of the results that become connections, in scan order. */
  function Qualifying(distances: seq<real>): seq<nat>
  {
    QualifyingFrom(distances, 0)
  }

  predicate InRange(r: QueryResult, j: nat)
  {
    j < |r.ids| && j < |r.documents|
  }

  function NeighbourAt(r: QueryResult, j: nat): Neighbour
    requires InRange(r, j)
  {
    Neighbour(r.ids[j], Preview(r.documents[j]))
  }

  /** Every index in `q` has an id and a document. */
  predicate AllInRange(r: QueryResult, q: seq<nat>)
  {
    forall j :: j in q ==> InRange(r, j)
  }

  /** `ns` holds one neighbour per index of `q`, in the order of `q`. */
  predicate NeighboursAt(r: QueryResult, q: seq<nat>, ns: seq<Neighbour>)
  {
    |ns| == |q| && forall k :: 0 <= k < |q| ==> InRange(r, q[k]) && ns[k] == NeighbourAt(r, q[k])
  }

  /** `e` is the least index of `q` without an id or a document. */
  predicate LeastOutOfRange(r: QueryResult, q: seq<nat>, e: nat)
  {
    e in q && !InRange(r, e) && forall j :: j in q && j < e ==> InRange(r, j)
  }

  /** The loop over the results from index `i` on: the neighbours it links, in
      index order, or the IndexError raised at the first qualifying index that
      `ids` or `documents` cannot serve. */
  function SelectFrom(r: QueryResult, i: nat): (out: Result<seq<Neighbour>, SelectError>)
    decreases |r.distances| - i
    ensures out.Success? <==> AllInRange(r, QualifyingFrom(r.distances, i))
    ensures out.Success? ==> NeighboursAt(r, QualifyingFrom(r.distances, i), out.value)
    ensures out.Failure? ==> LeastOutOfRange(r, QualifyingFrom(r.distances, i), out.error.index)
  {
    if i >= |r.distances| then Success([])
    else if r.distances[i] < Threshold then
      var q := QualifyingFrom(r.distances, i + 1);
      assert QualifyingFrom(r.distances, i) == [i] + q;
      if InRange(r, i) then
        var rest := SelectFrom(r, i + 1);
        AllInRangeCons(r, i, q);
        if rest.Success? then
          NeighboursAtCons(r, i, q, rest.value);
          Success([NeighbourAt(r, i)] + rest.value)
        else
          LeastOutOfRangeCons(r, i, q, rest.error.index);
          Failure(rest.error)
      else
        Failure(IndexOutOfRange(i))
    else
      SelectFrom(r, i + 1)
  }

  /** The three steps of the loop's proof: one more qualifying index in front. */
  lemma AllInRangeCons(r: QueryResult, i: nat, q: seq<nat>)
    ensures AllInRange(r, [i] + q) <==> InRange(r, i) && AllInRange(r, q)
  {
    assert forall j :: j in [i] + q <==> j == i || j in q;
  }

  lemma NeighboursAtCons(r: QueryResult, i: nat, q: seq<nat>, ns: seq<Neighbour>)
    requires InRange(r, i) && NeighboursAt(r, q, ns)
    ensures NeighboursAt(r, [i] + q, [NeighbourAt(r, i)] + ns)
  {
  }

  lemma LeastOutOfRangeCons(r: QueryResult, i: nat, q: seq<nat>, e: nat)
    requires InRange(r, i) && LeastOutOfRange(r, q, e)
    ensures LeastOutOfRange(r, [i] + q, e)
  {
    assert forall j :: j in [i] + q <==> j == i || j in q;
  }

  /** The whole loop. */
  function Select(r: QueryResult): Result<seq<Neighbour>, SelectError>
  {
    SelectFrom(r, 0)
  }

  /** The connection count is the number of results strictly below the
      threshold; a result at exactly the threshold is not one. */
  lemma ConnectionCount(r: QueryResult)
    requires Select(r).Success?
    ensures |Select(r).value| == |set j | 0 <= j < |r.distances| && r.distances[j] < Threshold|
  {
    var q := Qualifying(r.distances);
    var js := set j | 0 <= j < |r.distances| && r.distances[j] < Threshold;
    var qi: seq<int> := q;
    assert js == set j | j in qi;
    assert Distinct(qi);
    DistinctSetSize(qi);
  }

}
