/**
  The two request handlers that consume the resolver: registering a new person
  and recognising a face. Image decoding, face detection, alignment and
  embedding are summarised by an `Extraction`; the description store is a map
  from id to text. The handlers are modelled as written, including two
  defects (see `AddNewPersonIntended` and `ErrorReplyIntended` for the
  evidently intended behaviour).
*/
module Routes {
  import opened Wrappers
  import opened Scoring
  import opened FlatIndex
  import opened VectorDb

  /** What decoding, detection, alignment and embedding yield for one upload. */
  datatype Extraction =
      /** The upload is not a decodable image; `reason` is the decoder's message. */
    | Undecodable(reason: string)
    | NoFace
    | AlignmentFailed
    | Embedded(embedding: Vector)

  /** The argument handed to the description store: an id, or a whole (id, confidence) pair. */
  datatype Key = IdKey(id: int) | PairKey(pair: Match)

  /** The response's name field: "User <key>" or "New User". */
  datatype Name = User(key: Key) | NewUser

  datatype Response =
    | Person(name: Name, description: string, confidence: real)
    | HttpError(status: int, detail: string)

  /** The index service and the description store, as the handlers see them. */
  datatype State = State(db: Service, descriptions: map<int, string>)

  datatype Reply = Reply(after: State, response: Response)

  const NoDescription: string := "No description"
  const NewUserPrompt: string := "Please enter a description for the user"
  const NewUserConfidence: real := 0.5
  /** The confidence a match found while registering is reported with, whatever its tier. */
  const MatchConfidence: real := 0.95

  const NoFaceDetail: string := "No face detected"
  const AlignmentDetail: string := "Failed to align the face"
  const AddPrefix: string := "Error adding user: "
  const RecognizePrefix: string := "Error processing the image: "

  /** The resolver as both handlers call it: one nearest neighbour. */
  function Lookup(st: State, v: Vector): seq<Match>
    requires st.db.index.Valid()
  {
    SearchEmbedding(st.db.index, v, DefaultK)
  }

  /**
    The store's lookup. Only an integer is a valid query argument: a pair is
    rejected by the driver, and the lookup swallows the error as "no row".
  */
  function GetDescription(descriptions: map<int, string>, key: Key): (r: Option<string>)
    ensures key.PairKey? ==> r == None
    ensures key.IdKey? ==> (r.Some? <==> key.id in descriptions)
    ensures key.IdKey? && r.Some? ==> r.value == descriptions[key.id]
  {
    match key
    case IdKey(id) => if id in descriptions then Some(descriptions[id]) else None
    case PairKey(_) => None
  }

  /** `get_description(key) or "No description"`: no row and an empty text both fall back. */
  function DescriptionOr(descriptions: map<int, string>, key: Key): (d: string)
    ensures d != ""
    ensures key.IdKey? && key.id in descriptions && descriptions[key.id] != "" ==> d == descriptions[key.id]
    ensures !(key.IdKey? && key.id in descriptions && descriptions[key.id] != "") ==> d == NoDescription
  {
    match GetDescription(descriptions, key)
    case Some(text) => if text != "" then text else NoDescription
    case None => NoDescription
  }

  /**
    The store's insert. The id is the primary key, so inserting an id that
    already has a row fails, and the failure is swallowed.
  */
  function AddDescription(descriptions: map<int, string>, id: int, text: string): (d: map<int, string>)
    ensures d.Keys == descriptions.Keys + {id}
    ensures forall i :: i in descriptions ==> d[i] == descriptions[i]
    ensures id !in descriptions ==> d[id] == text
  {
    if id in descriptions then descriptions else descriptions[id := text]
  }

  /** The text of the exception the handlers' catch-all receives; an HTTP exception renders as "status: detail". */
  function ExceptionText(x: Extraction): string
    requires !x.Embedded?
  {
    match x
    case Undecodable(reason) => reason
    case NoFace => "400: " + NoFaceDetail
    case AlignmentFailed => "400: " + AlignmentDetail
  }

  /** As written: every failure before the search, the 400s included, leaves as a 500. */
  function ErrorReply(prefix: string, x: Extraction): (r: Response)
    requires !x.Embedded?
    ensures r.HttpError? && r.status == 500
    ensures x.NoFace? ==> r.detail == prefix + "400: " + NoFaceDetail
    ensures x.AlignmentFailed? ==> r.detail == prefix + "400: " + AlignmentDetail
    ensures x.Undecodable? ==> r.detail == prefix + x.reason
  {
    assert prefix + "400: " + NoFaceDetail == prefix + ("400: " + NoFaceDetail);
    assert prefix + "400: " + AlignmentDetail == prefix + ("400: " + AlignmentDetail);
    HttpError(500, prefix + ExceptionText(x))
  }

  /** As intended: the rejections raised as 400 reach the client as 400; anything else is a 500. */
  function ErrorReplyIntended(prefix: string, x: Extraction): (r: Response)
    requires !x.Embedded?
    ensures x.NoFace? ==> r == HttpError(400, NoFaceDetail)
    ensures x.AlignmentFailed? ==> r == HttpError(400, AlignmentDetail)
    ensures x.Undecodable? ==> r == HttpError(500, prefix + x.reason)
  {
    match x
    case NoFace => HttpError(400, NoFaceDetail)
    case AlignmentFailed => HttpError(400, AlignmentDetail)
    case Undecodable(reason) => HttpError(500, prefix + reason)
  }

  /** The 400s are the only failures the catch-all changes: written and intended replies agree exactly on undecodable uploads. */
  lemma ErrorRepliesAgreeOnlyOnUndecodable(prefix: string, x: Extraction)
    requires !x.Embedded?
    ensures ErrorReply(prefix, x) == ErrorReplyIntended(prefix, x) <==> x.Undecodable?
  {
    if !x.Undecodable? {
      assert ErrorReply(prefix, x).status != ErrorReplyIntended(prefix, x).status;
    }
  }

  /** The registration guard as written: the first result, an (id, confidence) pair, compared with -1. */
  predicate MatchGuard(results: seq<Match>) {
    |results| > 0 && PairKey(results[0]) != IdKey(MissingId)
  }

  /** The registration guard as intended: the first result's id compared with -1. */
  predicate MatchGuardIntended(results: seq<Match>) {
    |results| > 0 && results[0].id != MissingId
  }

  /** A pair never equals an integer, so the written guard only tests for a non-empty result. */
  lemma MatchGuardIsNonEmptiness(results: seq<Match>)
    ensures MatchGuard(results) <==> |results| > 0
  {
  }

  /**
    Registers a new person: the next id is the current entry count, the
    description is stored under it first, then the embedding is appended.
  */
  function Register(st: State, description: string, v: Vector, written: bool): (r: Reply)
    requires st.db.index.Valid()
    ensures r.response == Person(NewUser, description, NewUserConfidence)
    ensures r.after.db.index.Valid()
    ensures r.after.descriptions == AddDescription(st.descriptions, st.db.index.Count(), description)
    ensures |v| == st.db.index.dim && st.db.index.Count() <= MaxInt64 ==>
      && r.after.db.index.entries == st.db.index.entries + [Entry(st.db.index.Count(), v)]
      && r.after.db.index.dim == st.db.index.dim
      && (written ==> LoadIndex(r.after.db.file) == r.after.db.index)
      && (!written ==> r.after.db.file == st.db.file)
    ensures !(|v| == st.db.index.dim && st.db.index.Count() <= MaxInt64) ==> r.after.db == st.db
  {
    var newId := st.db.index.Count();
    var descriptions := AddDescription(st.descriptions, newId, description);
    var db := AddEmbeddings(st.db, [v], [newId], written);
    assert Insertable(st.db.index, [v], [newId]) <==> |v| == st.db.index.dim && newId <= MaxInt64 by {
      assert [v][0] == v && [newId][0] == newId;
    }
    assert Insertable(st.db.index, [v], [newId]) ==> db.index.entries == st.db.index.entries + [Entry(newId, v)];
    Reply(State(db, descriptions), Person(NewUser, description, NewUserConfidence))
  }

  /**
    The add-new-person handler as written. A non-empty search result is a
    match: nothing is stored, the confidence is fixed at 0.95, and the pair
    (not its id) is used for the name and for the description lookup.
    Otherwise the person is registered.
  */
  function AddNewPerson(st: State, description: string, x: Extraction, written: bool): (r: Reply)
    requires st.db.index.Valid()
    ensures !x.Embedded? ==> r.after == st && r.response == ErrorReply(AddPrefix, x)
    ensures x.Embedded? && Lookup(st, x.embedding) != [] ==>
      && r.after == st
      && r.response == Person(User(PairKey(Lookup(st, x.embedding)[0])), NoDescription, MatchConfidence)
    ensures x.Embedded? && Lookup(st, x.embedding) == [] ==> r == Register(st, description, x.embedding, written)
  {
    match x
    case Embedded(v) =>
      var results := Lookup(st, v);
      MatchGuardIsNonEmptiness(results);
      if MatchGuard(results) then
        var key := PairKey(results[0]);
        Reply(st, Person(User(key), DescriptionOr(st.descriptions, key), MatchConfidence))
      else
        Register(st, description, v, written)
    case _ => Reply(st, ErrorReply(AddPrefix, x))
  }

  /** The add-new-person handler as intended: the match's id names the user and keys the lookup, and 400s stay 400s. */
  function AddNewPersonIntended(st: State, description: string, x: Extraction, written: bool): (r: Reply)
    requires st.db.index.Valid()
    ensures !x.Embedded? ==> r.after == st && r.response == ErrorReplyIntended(AddPrefix, x)
    ensures x.Embedded? && MatchGuardIntended(Lookup(st, x.embedding)) ==>
      var id := Lookup(st, x.embedding)[0].id;
      && r.after == st
      && r.response == Person(User(IdKey(id)), DescriptionOr(st.descriptions, IdKey(id)), MatchConfidence)
    ensures x.Embedded? && !MatchGuardIntended(Lookup(st, x.embedding)) ==>
      r == Register(st, description, x.embedding, written)
  {
    match x
    case Embedded(v) =>
      var results := Lookup(st, v);
      if MatchGuardIntended(results) then
        var key := IdKey(results[0].id);
        Reply(st, Person(User(key), DescriptionOr(st.descriptions, key), MatchConfidence))
      else
        Register(st, description, v, written)
    case _ => Reply(st, ErrorReplyIntended(AddPrefix, x))
  }

  /**
    The recognition handler: the first accepted match names the user and
    lends its confidence; no match yields the new-user prompt. Nothing is stored.
  */
  function FaceRecognize(st: State, x: Extraction): (r: Response)
    requires st.db.index.Valid()
    ensures !x.Embedded? ==> r == ErrorReply(RecognizePrefix, x)
    ensures x.Embedded? ==> r.Person?
    ensures x.Embedded? ==> (r.name == NewUser <==> Lookup(st, x.embedding) == [])
    ensures x.Embedded? ==> (r.confidence == NewUserConfidence <==> r.name == NewUser)
    ensures x.Embedded? && r.name == NewUser ==> r == Person(NewUser, NewUserPrompt, NewUserConfidence)
    ensures x.Embedded? && r.name != NewUser ==>
      var m := Lookup(st, x.embedding)[0];
      && r == Person(User(IdKey(m.id)), DescriptionOr(st.descriptions, IdKey(m.id)), m.confidence)
      && exists j :: 0 <= j < st.db.index.Count() && ScoredFrom(m, st.db.index.entries[j], x.embedding)
  {
    match x
    case Embedded(v) =>
      var results := Lookup(st, v);
      if |results| > 0 then
        var m := results[0];
        Person(User(IdKey(m.id)), DescriptionOr(st.descriptions, IdKey(m.id)), m.confidence)
      else
        Person(NewUser, NewUserPrompt, NewUserConfidence)
    case _ => ErrorReply(RecognizePrefix, x)
  }

  /** Every entry's id is its position, the invariant id assignment by entry count maintains. */
  predicate Sequential(idx: Index) {
    forall i :: 0 <= i < |idx.entries| ==> idx.entries[i].id == i
  }

  lemma SequentialIdsAreDistinct(idx: Index)
    requires Sequential(idx)
    ensures forall i, j :: 0 <= i < j < |idx.entries| ==> idx.entries[i].id != idx.entries[j].id
  {
  }

  /** The state invariant: the index in memory and the one a restart would load both have sequential ids. */
  predicate Inv(st: State) {
    && st.db.index.Valid()
    && Sequential(st.db.index)
    && Sequential(LoadIndex(st.db.file))
  }

  /** Starting from an absent or unreadable file, or one with sequential ids, establishes the invariant. */
  lemma StartupEstablishesInv(file: IndexFile, descriptions: map<int, string>)
    requires file.Written? ==> Sequential(file.saved)
    ensures Inv(State(Open(file), descriptions))
  {
  }

  lemma AddNewPersonPreservesInv(st: State, description: string, x: Extraction, written: bool)
    requires Inv(st)
    ensures Inv(AddNewPerson(st, description, x, written).after)
  {
    if x.Embedded? && Lookup(st, x.embedding) == [] {
      var after := Register(st, description, x.embedding, written).after;
      var n := st.db.index.Count();
      if |x.embedding| == st.db.index.dim && n <= MaxInt64 {
        assert after.db.index.entries == st.db.index.entries + [Entry(n, x.embedding)];
        assert Sequential(after.db.index);
      }
    }
  }

  /** With sequential ids every reported id is a position, never -1, so the two guards agree. */
  lemma GuardsAgreeOnSequentialIds(st: State, v: Vector)
    requires st.db.index.Valid() && Sequential(st.db.index)
    ensures MatchGuard(Lookup(st, v)) <==> MatchGuardIntended(Lookup(st, v))
  {
    var results := Lookup(st, v);
    if |results| > 0 {
      var j :| 0 <= j < st.db.index.Count() && ScoredFrom(results[0], st.db.index.entries[j], v);
      assert results[0].id == j;
    }
  }

  /**
    Registering a face no stored entry matches, then presenting the same face
    for recognition, names the newly minted id at full confidence, and does so
    again after a restart from the written file.
  */
  lemma RegisteredFaceIsRecognised(st: State, description: string, v: Vector, written: bool)
    requires Inv(st) && |v| == st.db.index.dim && st.db.index.Count() <= MaxInt64
    requires Lookup(st, v) == []
    ensures
      var after := AddNewPerson(st, description, Embedded(v), written).after;
      var n := st.db.index.Count();
      var expected := Person(User(IdKey(n)), DescriptionOr(after.descriptions, IdKey(n)), FullConfidence);
      && FaceRecognize(after, Embedded(v)) == expected
      && (written ==> FaceRecognize(State(Open(after.db.file), after.descriptions), Embedded(v)) == expected)
      && (n !in st.descriptions && description != "" ==> expected.description == description)
  {
    var after := AddNewPerson(st, description, Embedded(v), written).after;
    var n := st.db.index.Count();
    var idx := after.db.index;
    NothingAcceptedMeansAllFar(st.db.index, v);
    assert idx.entries == st.db.index.entries + [Entry(n, v)];
    SqDistToSelf(v);
    forall j | 0 <= j < idx.Count() && j != n
      ensures FarBound <= SqDist(idx.entries[j].vector, v)
    {
      assert idx.entries[j] == st.db.index.entries[j];
    }
    OnlyCloseEntryIsFound(idx, v, n);
    assert Lookup(after, v) == [Match(n, FullConfidence)];
  }

  /** As written, a 400 rejection reaches the client as a 500 whose detail embeds the 400. */
  lemma NoFaceAnswers500(st: State, description: string, written: bool)
    requires st.db.index.Valid()
    ensures AddNewPerson(st, description, NoFace, written).response
      == HttpError(500, "Error adding user: 400: No face detected")
    ensures FaceRecognize(st, NoFace) == HttpError(500, "Error processing the image: 400: No face detected")
  {
    assert AddPrefix + ExceptionText(NoFace) == "Error adding user: 400: No face detected";
    assert RecognizePrefix + ExceptionText(NoFace) == "Error processing the image: 400: No face detected";
  }

  /** As intended, the same upload is rejected with 400 and the handler's own detail. */
  lemma NoFaceAnswers400Intended(st: State, description: string, written: bool)
    requires st.db.index.Valid()
    ensures AddNewPersonIntended(st, description, NoFace, written).response == HttpError(400, "No face detected")
    ensures AddNewPersonIntended(st, description, AlignmentFailed, written).response
      == HttpError(400, "Failed to align the face")
  {
  }

  /**
    As written, re-submitting the face of a registered person to the
    add-new-person handler reports "No description" and a name built from the
    (id, confidence) pair, while the intended handler reports the stored text.
  */
  lemma ResubmittedFaceLosesDescription(st: State, description: string, v: Vector, written: bool)
    requires Inv(st) && |v| == st.db.index.dim && st.db.index.Count() <= MaxInt64
    requires Lookup(st, v) == []
    requires st.db.index.Count() !in st.descriptions
    requires description != "" && description != NoDescription
    ensures
      var after := AddNewPerson(st, description, Embedded(v), written).after;
      var n := st.db.index.Count();
      && AddNewPerson(after, "", Embedded(v), written).response
         == Person(User(PairKey(Match(n, FullConfidence))), NoDescription, MatchConfidence)
      && AddNewPersonIntended(after, "", Embedded(v), written).response
         == Person(User(IdKey(n)), description, MatchConfidence)
  {
    RegisteredFaceIsRecognised(st, description, v, written);
    var after := AddNewPerson(st, description, Embedded(v), written).after;
    var n := st.db.index.Count();
    assert Lookup(after, v) == [Match(n, FullConfidence)];
    assert after.descriptions[n] == description;
    ResubmissionAnswers(after, v, written, n);
  }

  /** What both handlers answer for a face whose one match is stored entry `n`. */
  lemma ResubmissionAnswers(st: State, v: Vector, written: bool, n: nat)
    requires st.db.index.Valid() && Lookup(st, v) == [Match(n, FullConfidence)]
    requires n in st.descriptions && st.descriptions[n] != ""
    ensures AddNewPerson(st, "", Embedded(v), written).response
      == Person(User(PairKey(Match(n, FullConfidence))), NoDescription, MatchConfidence)
    ensures AddNewPersonIntended(st, "", Embedded(v), written).response
      == Person(User(IdKey(n)), st.descriptions[n], MatchConfidence)
  {
    assert MatchGuardIntended([Match(n, FullConfidence)]);
  }
}
