/**
  The vector-database service: one index, held in memory and mirrored to a
  single file. Loading falls back to a fresh 512-dimension index, inserts are
  written through to the file, and a search turns raw distances into
  confidences and keeps only the accepted ones. Every internal failure is
  absorbed: a failed insert changes nothing and a failed search finds nobody.
*/
module VectorDb {
  import opened Wrappers
  import opened Scoring
  import opened FlatIndex

  /** The neighbour count the routes search with. */
  const DefaultK: int := 1

  /** The index file on disk, as far as loading it is concerned. */
  datatype IndexFile =
    | Absent
      /** Present but not deserialisable: corrupt, wrong format or wrong library version. */
    | Unreadable
    | Written(saved: Index)

  datatype Service = Service(index: Index, file: IndexFile)

  /**
    The index a start-up obtains from the file: the saved index when the file
    holds a well-formed one, and a fresh empty index of dimension 512 otherwise.
  */
  function LoadIndex(file: IndexFile): (idx: Index)
    ensures idx.Valid()
    ensures file.Written? && file.saved.Valid() ==> idx == file.saved
    ensures !(file.Written? && file.saved.Valid()) ==> idx.Count() == 0 && idx.dim == Dimension
  {
    match file
    case Written(saved) => if saved.Valid() then saved else Empty(Dimension)
    case _ => Empty(Dimension)
  }

  function Open(file: IndexFile): (s: Service)
    ensures s.index.Valid() && s.file == file
    ensures s.index == LoadIndex(file)
  {
    Service(LoadIndex(file), file)
  }

  /** The file after a save; `written` is whether the write succeeded, a failed one is swallowed. */
  function SaveIndex(idx: Index, file: IndexFile, written: bool): (f: IndexFile)
    ensures written ==> f == Written(idx)
    ensures !written ==> f == file
  {
    if written then Written(idx) else file
  }

  /** A successful save is read back as the very index that was saved. */
  lemma SaveThenLoad(idx: Index, file: IndexFile)
    requires idx.Valid()
    ensures LoadIndex(SaveIndex(idx, file, true)) == idx
  {
  }

  /**
    Inserts the pairs and, on success, writes the whole index through to the
    file. A rejected insert leaves both the index and the file untouched.
  */
  function AddEmbeddings(s: Service, vectors: seq<Vector>, ids: seq<int>, written: bool): (s': Service)
    requires s.index.Valid()
    ensures s'.index.Valid() && s'.index.dim == s.index.dim
    ensures !Insertable(s.index, vectors, ids) ==> s' == s
    ensures Insertable(s.index, vectors, ids) ==>
      && s'.index.Count() == s.index.Count() + |ids|
      && s'.index.entries[..s.index.Count()] == s.index.entries
      && (forall i :: 0 <= i < |ids| ==> s'.index.entries[s.index.Count() + i] == Entry(ids[i], vectors[i]))
      && (written ==> LoadIndex(s'.file) == s'.index)
      && (!written ==> s'.file == s.file)
  {
    match AddWithIds(s.index, vectors, ids)
    case Failure(_) => s
    case Success(idx) => Service(idx, SaveIndex(idx, s.file, written))
  }

  /** A reported neighbour: its id and the confidence its distance earned. */
  datatype Match = Match(id: int, confidence: real)

  /** Pairs every slot's label with the confidence of that slot's own distance. */
  function Score(ns: seq<Neighbour>): (ms: seq<Match>)
    ensures |ms| == |ns|
    ensures forall i :: 0 <= i < |ns| ==> ms[i].id == ns[i].id && ms[i].confidence == Confidence(ns[i].distance)
  {
    seq(|ns|, i requires 0 <= i < |ns| => Match(ns[i].id, Confidence(ns[i].distance)))
  }

  /** `xs` is `ys` with some elements left out and the rest in their original order. */
  ghost predicate IsSubsequence(xs: seq<Match>, ys: seq<Match>)
    decreases |ys|
  {
    || |xs| == 0
    || (&& |ys| > 0
        && ((xs[0] == ys[0] && IsSubsequence(xs[1..], ys[1..])) || IsSubsequence(xs, ys[1..])))
  }

  /** The filter step of a search: the matches whose confidence reaches the bar, order kept. */
  function KeepAccepted(ms: seq<Match>): (r: seq<Match>)
    ensures |r| <= |ms|
    ensures forall i :: 0 <= i < |r| ==> Accepted(r[i].confidence)
    ensures forall i :: 0 <= i < |ms| && Accepted(ms[i].confidence) ==> ms[i] in r
    ensures multiset(r) <= multiset(ms)
    ensures IsSubsequence(r, ms)
    decreases |ms|
  {
    if |ms| == 0 then []
    else
      assert ms == [ms[0]] + ms[1..];
      var rest := KeepAccepted(ms[1..]);
      if Accepted(ms[0].confidence) then
        assert ([ms[0]] + rest)[1..] == rest;
        [ms[0]] + rest
      else rest
  }

  /** The filter keeps every accepted match as often as it occurs, and nothing else. */
  lemma {:induction false} KeepAcceptedCounts(ms: seq<Match>)
    ensures forall m :: multiset(KeepAccepted(ms))[m] == if Accepted(m.confidence) then multiset(ms)[m] else 0
    decreases |ms|
  {
    if |ms| > 0 {
      assert ms == [ms[0]] + ms[1..];
      KeepAcceptedCounts(ms[1..]);
    }
  }

  /** Reference definition: the slots whose distance is below the far bound, order kept. */
  function CloseOnly(ns: seq<Neighbour>): seq<Neighbour>
    decreases |ns|
  {
    if |ns| == 0 then []
    else if ns[0].distance < FarBound then [ns[0]] + CloseOnly(ns[1..])
    else CloseOnly(ns[1..])
  }

  /** Filtering by confidence keeps exactly the slots that are closer than the far bound. */
  lemma {:induction false} AcceptedAreExactlyTheClose(ns: seq<Neighbour>)
    ensures KeepAccepted(Score(ns)) == Score(CloseOnly(ns))
    decreases |ns|
  {
    if |ns| > 0 {
      var ms := Score(ns);
      assert ms[1..] == Score(ns[1..]);
      AcceptedAreExactlyTheClose(ns[1..]);
      if ns[0].distance < FarBound {
        assert Score([ns[0]] + CloseOnly(ns[1..])) == [ms[0]] + Score(CloseOnly(ns[1..]));
      }
    }
  }

  /** A match with this id and confidence is what entry `e` earns against query `q`. */
  predicate ScoredFrom(m: Match, e: Entry, q: Vector) {
    && |e.vector| == |q|
    && m.id == e.id
    && SqDist(e.vector, q) < FarBound
    && m.confidence == Confidence(SqDist(e.vector, q))
  }

  /**
    The resolver: search for the k nearest entries, score each slot and keep
    the accepted ones in ranking order. A failing search yields no matches.
  */
  function SearchEmbedding(idx: Index, q: Vector, k: int): (r: seq<Match>)
    requires idx.Valid()
    ensures |q| != idx.dim || k <= 0 ==> r == []
    ensures |r| <= Found(idx, k)
    ensures forall i :: 0 <= i < |r| ==> r[i].confidence == FullConfidence || r[i].confidence == HighConfidence
    ensures forall i :: 0 <= i < |r| ==> exists j :: 0 <= j < idx.Count() && ScoredFrom(r[i], idx.entries[j], q)
  {
    match Search(idx, q, k)
    case Failure(_) => []
    case Success(ns) =>
      MatchesComeFromEntries(idx, q, k, ns);
      KeepAccepted(Score(ns))
  }

  /** Sentinel slots never pass the filter; every accepted slot is a stored entry's. */
  lemma MatchesComeFromEntries(idx: Index, q: Vector, k: int, ns: seq<Neighbour>)
    requires idx.Valid() && Search(idx, q, k) == Success(ns)
    ensures |KeepAccepted(Score(ns))| <= Found(idx, k)
    ensures forall i :: 0 <= i < |KeepAccepted(Score(ns))| ==>
      exists j :: 0 <= j < idx.Count() && ScoredFrom(KeepAccepted(Score(ns))[i], idx.entries[j], q)
  {
    var r := KeepAccepted(Score(ns));
    AcceptedWithinFound(idx, q, k, ns);
    forall i | 0 <= i < |r|
      ensures exists j :: 0 <= j < idx.Count() && ScoredFrom(r[i], idx.entries[j], q)
    {
      AcceptedMatchIsStored(idx, q, k, ns, i);
    }
  }

  /** At most as many matches are accepted as real entries fill slots. */
  lemma AcceptedWithinFound(idx: Index, q: Vector, k: int, ns: seq<Neighbour>)
    requires idx.Valid() && Search(idx, q, k) == Success(ns)
    ensures |KeepAccepted(Score(ns))| <= Found(idx, k)
  {
    AcceptedAreExactlyTheClose(ns);
    CloseOnlyOfPaddedPrefix(ns, Found(idx, k));
  }

  /** The i-th accepted match is the score of a slot closer than the far bound. */
  lemma AcceptedMatchIsStored(idx: Index, q: Vector, k: int, ns: seq<Neighbour>, i: nat)
    requires idx.Valid() && Search(idx, q, k) == Success(ns)
    requires i < |KeepAccepted(Score(ns))|
    ensures exists j :: 0 <= j < idx.Count() && ScoredFrom(KeepAccepted(Score(ns))[i], idx.entries[j], q)
  {
    var ms := Score(ns);
    var r := KeepAccepted(ms);
    assert Accepted(r[i].confidence);
    assert r[i] in multiset(r);
    assert r[i] in multiset(ms);
    var p :| 0 <= p < |ms| && ms[p] == r[i];
    assert ms[p].confidence == Confidence(ns[p].distance);
    assert ns[p].distance < FarBound;
    CloseSlotIsStored(idx, q, k, ns, p);
  }

  /** A slot closer than the far bound holds some stored entry and its distance. */
  lemma CloseSlotIsStored(idx: Index, q: Vector, k: int, ns: seq<Neighbour>, p: nat)
    requires idx.Valid() && Search(idx, q, k) == Success(ns)
    requires p < |ns| && ns[p].distance < FarBound
    ensures exists j :: 0 <= j < idx.Count() && ScoredFrom(Match(ns[p].id, Confidence(ns[p].distance)), idx.entries[j], q)
  {
    var m := Found(idx, k);
    if p >= m {
      assert false;
    }
    var found := Neighbours(idx, q);
    assert ns[p] == ns[..m][p];
    assert ns[p] in multiset(ns[..m]);
    assert ns[p] in multiset(found);
    var j :| 0 <= j < |found| && found[j] == ns[p];
    assert ScoredFrom(Match(ns[p].id, Confidence(ns[p].distance)), idx.entries[j], q);
  }

  /** Only the first m slots of a search can be close, so at most m survive the filter. */
  lemma {:induction false} CloseOnlyOfPaddedPrefix(ns: seq<Neighbour>, m: nat)
    requires m <= |ns| && forall i :: m <= i < |ns| ==> ns[i] == Sentinel
    ensures |CloseOnly(ns)| <= m
    decreases |ns|
  {
    if |ns| > 0 {
      if m > 0 {
        CloseOnlyOfPaddedPrefix(ns[1..], m - 1);
      } else {
        assert ns[0] == Sentinel;
        CloseOnlyOfPaddedPrefix(ns[1..], 0);
      }
    }
  }

  /** A successful search keeps exactly its close slots, as an order-preserving subsequence of the scored slots. */
  lemma SearchKeepsTheCloseInOrder(idx: Index, q: Vector, k: int)
    requires idx.Valid() && |q| == idx.dim && k > 0
    ensures SearchEmbedding(idx, q, k) == Score(CloseOnly(Search(idx, q, k).value))
    ensures IsSubsequence(SearchEmbedding(idx, q, k), Score(Search(idx, q, k).value))
  {
    AcceptedAreExactlyTheClose(Search(idx, q, k).value);
  }

  /** An empty one-neighbour search means every stored vector is at least the far bound away. */
  lemma NothingAcceptedMeansAllFar(idx: Index, q: Vector)
    requires idx.Valid() && |q| == idx.dim && SearchEmbedding(idx, q, DefaultK) == []
    ensures forall j :: 0 <= j < idx.Count() ==> FarBound <= SqDist(idx.entries[j].vector, q)
  {
    if idx.Count() > 0 {
      var ns := Search(idx, q, DefaultK).value;
      SearchKeepsTheCloseInOrder(idx, q, DefaultK);
      assert |Score(CloseOnly(ns))| == 0;
      assert ns[1..] == [];
      assert FarBound <= ns[0].distance;
      assert ns[..Found(idx, DefaultK)] == [ns[0]];
      forall j | 0 <= j < idx.Count()
        ensures FarBound <= SqDist(idx.entries[j].vector, q)
      {
        EveryEntryKeptOrNoNearer(idx, q, DefaultK, j);
      }
    }
  }

  /** When exactly one stored vector is closer than the far bound, a one-neighbour search reports it. */
  lemma OnlyCloseEntryIsFound(idx: Index, q: Vector, j0: nat)
    requires idx.Valid() && |q| == idx.dim && j0 < idx.Count()
    requires SqDist(idx.entries[j0].vector, q) < FarBound
    requires forall j :: 0 <= j < idx.Count() && j != j0 ==> FarBound <= SqDist(idx.entries[j].vector, q)
    ensures SearchEmbedding(idx, q, DefaultK) == [Match(idx.entries[j0].id, Confidence(SqDist(idx.entries[j0].vector, q)))]
  {
    var best := NeighbourOf(idx.entries[j0], q);
    OnlyCloseEntryIsNearest(idx, q, j0);
    SearchKeepsTheCloseInOrder(idx, q, DefaultK);
    assert [best][1..] == [];
    assert CloseOnly([best]) == [best];
  }

  /** ... and it is the one slot of that search. */
  lemma OnlyCloseEntryIsNearest(idx: Index, q: Vector, j0: nat)
    requires idx.Valid() && |q| == idx.dim && j0 < idx.Count()
    requires SqDist(idx.entries[j0].vector, q) < FarBound
    requires forall j :: 0 <= j < idx.Count() && j != j0 ==> FarBound <= SqDist(idx.entries[j].vector, q)
    ensures Search(idx, q, DefaultK) == Success([NeighbourOf(idx.entries[j0], q)])
  {
    var ns := Search(idx, q, DefaultK).value;
    var found := Neighbours(idx, q);
    var best := NeighbourOf(idx.entries[j0], q);
    assert |ns| == 1 && Found(idx, DefaultK) == 1;
    assert ns[..1] == [ns[0]];
    assert found[j0] == best;
    EveryEntryKeptOrNoNearer(idx, q, DefaultK, j0);
    assert ns[0].distance < FarBound;
    assert ns[0] in multiset(ns[..1]);
    CloseNeighbourIsTheOnlyClose(idx, q, j0, ns[0]);
    assert ns == [ns[0]];
  }

  /** With one stored vector closer than the far bound, every close neighbour is that vector's. */
  lemma CloseNeighbourIsTheOnlyClose(idx: Index, q: Vector, j0: nat, n: Neighbour)
    requires idx.Valid() && |q| == idx.dim && j0 < idx.Count()
    requires forall j :: 0 <= j < idx.Count() && j != j0 ==> FarBound <= SqDist(idx.entries[j].vector, q)
    requires n in multiset(Neighbours(idx, q)) && n.distance < FarBound
    ensures n == NeighbourOf(idx.entries[j0], q)
  {
    var found := Neighbours(idx, q);
    var j :| 0 <= j < |found| && found[j] == n;
    assert found[j] == NeighbourOf(idx.entries[j], q);
  }

  /** A fresh index recognises nobody, whatever the query and k. */
  lemma EmptyIndexFindsNobody(q: Vector, k: int)
    ensures SearchEmbedding(Empty(Dimension), q, k) == []
  {
  }

  /**
    Two stored vectors at squared distance at least 1 from each other:
    searching for the first with k = 2 reports only the first, at full confidence.
  */
  lemma TwoEntryScenario(a: Vector, b: Vector)
    requires |a| == Dimension && |b| == Dimension && FarBound <= SqDist(b, a)
    ensures SearchEmbedding(Index(Dimension, [Entry(0, a), Entry(1, b)]), a, 2) == [Match(0, FullConfidence)]
  {
    var idx := Index(Dimension, [Entry(0, a), Entry(1, b)]);
    SqDistToSelf(a);
    var n0 := Neighbour(0, 0.0);
    var n1 := Neighbour(1, SqDist(b, a));
    var ns := Neighbours(idx, a);
    assert ns == [n0, n1];
    RankOfAscendingPair(n0, n1);
    assert Search(idx, a, 2).value == [n0, n1];
    KeepAcceptedOfNearFarPair(n0, n1);
  }

  lemma RankOfAscendingPair(n0: Neighbour, n1: Neighbour)
    requires n0.distance <= n1.distance
    ensures Rank([n0, n1]) == [n0, n1]
  {
    assert [n0, n1][1..] == [n1];
    assert Rank([n1]) == InsertByDistance(n1, []) == [n1];
  }

  lemma KeepAcceptedOfNearFarPair(n0: Neighbour, n1: Neighbour)
    requires n0.distance < NearBound && FarBound <= n1.distance
    ensures KeepAccepted(Score([n0, n1])) == [Match(n0.id, FullConfidence)]
  {
    var ms := Score([n0, n1]);
    assert ms == [Match(n0.id, FullConfidence), Match(n1.id, LowConfidence)];
    assert ms[1..] == [Match(n1.id, LowConfidence)];
    assert ms[1..][1..] == [];
  }
}
