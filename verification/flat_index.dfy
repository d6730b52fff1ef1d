/**
  An exact nearest-neighbour index over fixed-dimension vectors keyed by
  caller-supplied 64-bit ids: the behaviour of a flat squared-L2 index wrapped
  in an id map. The index is an append-only list of entries; a search ranks
  every entry by its squared distance to the query and reports the first k,
  padding with a sentinel when fewer than k entries exist.
*/
module FlatIndex {
  import opened Wrappers

  /** The dimension every fresh index is created with. */
  const Dimension: nat := 512

  /** The label reported for a result slot that no stored vector fills. */
  const MissingId: int := -1

  /** The distance reported for such a slot: the largest finite 32-bit float. */
  const FloatMax: real := 340282346638528859811704183484516925440.0

  const MinInt64: int := -0x8000_0000_0000_0000
  const MaxInt64: int := 0x7FFF_FFFF_FFFF_FFFF

  type Vector = seq<real>

  predicate InInt64(x: int) {
    MinInt64 <= x <= MaxInt64
  }

  datatype Entry = Entry(id: int, vector: Vector)

  /** The stored entries, in insertion order, and the fixed dimension. */
  datatype Index = Index(dim: nat, entries: seq<Entry>) {

    /** Every stored vector has the index's dimension and every id fits in 64 bits. */
    predicate Valid() {
      forall i :: 0 <= i < |entries| ==> |entries[i].vector| == dim && InInt64(entries[i].id)
    }

    /** The number of stored vectors (`ntotal`). */
    function Count(): nat {
      |entries|
    }
  }

  function Empty(dim: nat): (idx: Index)
    ensures idx.Valid() && idx.Count() == 0 && idx.dim == dim
  {
    Index(dim, [])
  }

  /** Squared Euclidean distance. */
  function SqDist(a: Vector, b: Vector): (d: real)
    requires |a| == |b|
    ensures d >= 0.0
    decreases |a|
  {
    if |a| == 0 then 0.0
    else
      var diff := a[0] - b[0];
      diff * diff + SqDist(a[1..], b[1..])
  }

  lemma {:induction false} SqDistToSelf(v: Vector)
    ensures SqDist(v, v) == 0.0
    decreases |v|
  {
    if |v| > 0 {
      SqDistToSelf(v[1..]);
    }
  }

  /** One reported result slot: a label and its squared distance to the query. */
  datatype Neighbour = Neighbour(id: int, distance: real)

  const Sentinel: Neighbour := Neighbour(MissingId, FloatMax)

  function NeighbourOf(e: Entry, q: Vector): Neighbour
    requires |e.vector| == |q|
  {
    Neighbour(e.id, SqDist(e.vector, q))
  }

  /** Every entry paired with its distance to `q`, in insertion order. */
  function Neighbours(idx: Index, q: Vector): (ns: seq<Neighbour>)
    requires idx.Valid() && |q| == idx.dim
  {
    seq(|idx.entries|, i requires 0 <= i < |idx.entries| => NeighbourOf(idx.entries[i], q))
  }

  predicate Ascending(ns: seq<Neighbour>) {
    forall i, j :: 0 <= i < j < |ns| ==> ns[i].distance <= ns[j].distance
  }

  /** Places `n` before the first neighbour that is not nearer than it. */
  function InsertByDistance(n: Neighbour, sorted: seq<Neighbour>): (r: seq<Neighbour>)
    requires Ascending(sorted)
    ensures |r| == |sorted| + 1
    ensures Ascending(r)
    ensures multiset(r) == multiset(sorted) + multiset{n}
    decreases |sorted|
  {
    if |sorted| == 0 || n.distance <= sorted[0].distance then
      [n] + sorted
    else
      assert sorted == [sorted[0]] + sorted[1..];
      var rest := InsertByDistance(n, sorted[1..]);
      NoNearerThanHead(sorted, n, rest);
      [sorted[0]] + rest
  }

  /** Everything inserted behind the head of an ascending list is at least as far as the head. */
  lemma NoNearerThanHead(sorted: seq<Neighbour>, n: Neighbour, rest: seq<Neighbour>)
    requires |sorted| > 0 && Ascending(sorted) && sorted[0].distance <= n.distance
    requires multiset(rest) == multiset(sorted[1..]) + multiset{n}
    ensures forall i :: 0 <= i < |rest| ==> sorted[0].distance <= rest[i].distance
  {
    forall i | 0 <= i < |rest|
      ensures sorted[0].distance <= rest[i].distance
    {
      assert rest[i] in multiset(rest);
      if rest[i] != n {
        assert rest[i] in multiset(sorted[1..]);
        var p :| 0 <= p < |sorted[1..]| && sorted[1..][p] == rest[i];
        assert sorted[p + 1] == rest[i];
      }
    }
  }

  /**
    The neighbours ordered by ascending distance; among equal distances the
    earlier-inserted entry comes first.
  */
  function Rank(ns: seq<Neighbour>): (r: seq<Neighbour>)
    ensures |r| == |ns|
    ensures Ascending(r)
    ensures multiset(r) == multiset(ns)
    decreases |ns|
  {
    if |ns| == 0 then []
    else
      assert ns == [ns[0]] + ns[1..];
      InsertByDistance(ns[0], Rank(ns[1..]))
  }

  function Padding(n: nat): (ps: seq<Neighbour>)
  {
    seq(n, _ => Sentinel)
  }

  /** How many slots of a k-search real entries fill. */
  function Found(idx: Index, k: int): nat {
    if k < idx.Count() then (if k < 0 then 0 else k) else idx.Count()
  }

  datatype SearchError = DimensionMismatch | NonPositiveK

  /**
    A k-nearest-neighbour search. The query must have the index's dimension
    and k must be positive, otherwise the search fails. On success exactly k
    slots are reported: the nearest entries in ascending order of distance,
    then sentinels.
  */
  function Search(idx: Index, q: Vector, k: int): (r: Result<seq<Neighbour>, SearchError>)
    requires idx.Valid()
    ensures r.Success? <==> |q| == idx.dim && k > 0
    ensures r.Success? ==> |r.value| == k
    ensures r.Success? ==> Ascending(r.value[..Found(idx, k)])
    ensures r.Success? ==> multiset(r.value[..Found(idx, k)]) <= multiset(Neighbours(idx, q))
    ensures r.Success? ==> forall i :: Found(idx, k) <= i < k ==> r.value[i] == Sentinel
    ensures r.Success? ==>
      forall n :: n in multiset(Neighbours(idx, q)) - multiset(r.value[..Found(idx, k)]) ==>
        forall i :: 0 <= i < Found(idx, k) ==> r.value[i].distance <= n.distance
  {
    if |q| != idx.dim then Failure(DimensionMismatch)
    else if k <= 0 then Failure(NonPositiveK)
    else
      var ns := Neighbours(idx, q);
      var ranked := Rank(ns);
      var m := Found(idx, k);
      var slots := ranked[..m] + Padding(k - m);
      PaddedRankingIsNearest(ranked, ns, m, k);
      Success(slots)
  }

  /** The reported slots: a ranking's nearest prefix followed by sentinels. */
  lemma PaddedRankingIsNearest(ranked: seq<Neighbour>, ns: seq<Neighbour>, m: nat, k: nat)
    requires Ascending(ranked) && multiset(ranked) == multiset(ns) && m <= |ranked| && m <= k
    ensures
      var slots := ranked[..m] + Padding(k - m);
      && |slots| == k
      && Ascending(slots[..m])
      && multiset(slots[..m]) <= multiset(ns)
      && (forall i :: m <= i < k ==> slots[i] == Sentinel)
      && (forall n :: n in multiset(ns) - multiset(slots[..m]) ==>
            forall i :: 0 <= i < m ==> slots[i].distance <= n.distance)
  {
    var slots := ranked[..m] + Padding(k - m);
    assert slots[..m] == ranked[..m];
    PrefixIsNearest(ranked, ns, m);
  }

  /**
    A prefix of a ranking holds nearest neighbours: whatever it leaves out,
    counted with multiplicity, is at least as far as everything it keeps.
  */
  lemma PrefixIsNearest(ranked: seq<Neighbour>, ns: seq<Neighbour>, m: nat)
    requires Ascending(ranked) && multiset(ranked) == multiset(ns) && m <= |ranked|
    ensures multiset(ranked[..m]) <= multiset(ns)
    ensures forall n :: n in multiset(ns) - multiset(ranked[..m]) ==>
      forall i :: 0 <= i < m ==> ranked[i].distance <= n.distance
  {
    assert ranked == ranked[..m] + ranked[m..];
    assert multiset(ns) - multiset(ranked[..m]) == multiset(ranked[m..]);
    forall n | n in multiset(ranked[m..])
      ensures forall i :: 0 <= i < m ==> ranked[i].distance <= n.distance
    {
      var p :| 0 <= p < |ranked[m..]| && ranked[m..][p] == n;
      assert ranked[m + p] == n;
    }
  }

  /** Per entry: a successful search either reports it or reports only entries at least as near. */
  lemma EveryEntryKeptOrNoNearer(idx: Index, q: Vector, k: int, j: nat)
    requires idx.Valid() && Search(idx, q, k).Success? && j < idx.Count()
    ensures
      var prefix := Search(idx, q, k).value[..Found(idx, k)];
      NeighbourOf(idx.entries[j], q) in prefix
      || forall i :: 0 <= i < |prefix| ==> prefix[i].distance <= SqDist(idx.entries[j].vector, q)
  {
    var prefix := Search(idx, q, k).value[..Found(idx, k)];
    var n := NeighbourOf(idx.entries[j], q);
    assert Neighbours(idx, q)[j] == n;
    assert n in multiset(Neighbours(idx, q));
    if n !in prefix {
      assert n in multiset(Neighbours(idx, q)) - multiset(prefix);
    }
  }

  datatype AddError = IdOutOfRange | ShapeMismatch | CountMismatch

  /** What an insert demands of its arguments: 64-bit ids, one per vector of the index's dimension. */
  predicate Insertable(idx: Index, vectors: seq<Vector>, ids: seq<int>) {
    && (forall i :: 0 <= i < |ids| ==> InInt64(ids[i]))
    && (forall i :: 0 <= i < |vectors| ==> |vectors[i]| == idx.dim)
    && |vectors| == |ids|
  }

  /**
    Appends one entry per (vector, id) pair, or adds nothing when the
    arguments are not insertable. Duplicate ids are accepted.
  */
  function AddWithIds(idx: Index, vectors: seq<Vector>, ids: seq<int>): (r: Result<Index, AddError>)
    requires idx.Valid()
    ensures r.Success? <==> Insertable(idx, vectors, ids)
    ensures r.Success? ==> r.value.Valid() && r.value.dim == idx.dim
    ensures r.Success? ==> r.value.Count() == idx.Count() + |ids|
    ensures r.Success? ==> r.value.entries[..idx.Count()] == idx.entries
    ensures r.Success? ==>
      forall i :: 0 <= i < |ids| ==> r.value.entries[idx.Count() + i] == Entry(ids[i], vectors[i])
  {
    if exists i :: 0 <= i < |ids| && !InInt64(ids[i]) then Failure(IdOutOfRange)
    else if exists i :: 0 <= i < |vectors| && |vectors[i]| != idx.dim then Failure(ShapeMismatch)
    else if |vectors| != |ids| then Failure(CountMismatch)
    else
      var added := seq(|ids|, i requires 0 <= i < |ids| => Entry(ids[i], vectors[i]));
      Success(Index(idx.dim, idx.entries + added))
  }
}
