# Face identification core: embedding index and identity resolution

This project models, in Dafny, the part of the FaceAnalytics backend that decides who is in a photo.

- **Index (`VectorDBService`).** It wraps an exact squared-L2 index of 512-dimension vectors keyed by caller-supplied 64-bit ids. The index is loaded from a file at start-up, falling back to a fresh empty index. Every insert is written through to the file.
- **Resolver (`search_embedding`).** It takes the `k` nearest neighbours of a query, maps each distance to a confidence with a three-tier step function (below 0.6 → 1.0, below 1.0 → 0.95, otherwise 0.5), and keeps the neighbours whose confidence is at least 0.8, in ranking order.
- **Routes.** Two request handlers consume the resolver. `add_new_person` either reports an existing match or registers a new person: it mints the next id as the current entry count, stores the description under that id, then appends the embedding. `face_recognize` reports the first match or a prompt to register.

Modules, one per component:

- `Wrappers` (`wrappers.dfy`): `Option` and `Result`.
- `Scoring` (`scoring.dfy`): the step function and the acceptance bar.
- `FlatIndex` (`flat_index.dfy`): the index as an append-only sequence of `(id, vector)` entries.
  - `Search` ranks every entry by squared distance with a stable insertion sort. It returns exactly `k` slots and fills missing ones with the library's sentinel: id −1 at the largest 32-bit float distance.
  - `AddWithIds` appends the pairs, or fails without change when an id does not fit in 64 bits, a vector has the wrong dimension, or the counts differ.
- `VectorDb` (`vector_db.dfy`): loading, saving, write-through insert, scoring and filtering. Every failure the service absorbs becomes an unchanged state or an empty result.
- `Routes` (`routes.dfy`): the two handlers as a transition function over `(index service, description store)`.
  - The image pipeline is abstracted as an `Extraction`: undecodable upload, no face, alignment failure, or an embedding.
  - The description store is a `map<int, string>` with insert-only semantics. A duplicate primary key makes the insert fail silently.

Two facts about the index library shape the model:

- The library validates insert shapes and search dimensions. A mismatch fails the call, and the service swallows the failure.
- An index with fewer than `k` entries pads the result with id −1 at distance `3.4028235e38`. Those slots score 0.5 and are filtered out.

## Model

| member | source | states |
|---|---|---|
| Scoring.Confidence | backend_service/app/api/faiss_service.py:81-88 | below 0.6 gives 1.0, [0.6, 1.0) gives 0.95, 1.0 and above gives 0.5; the result is always one of the three tiers, and it passes the 0.8 bar exactly when the distance is below 1.0 |
| Scoring.ConfidenceNonIncreasing | backend_service/app/api/faiss_service.py:81-88 | a larger distance never earns a larger confidence |
| Scoring.ConfidenceAtBoundaries | backend_service/app/api/faiss_service.py:83-88 | exactly 0.6 scores 0.95, not 1.0; exactly 1.0 scores 0.5, not 0.95 |
| FlatIndex.Empty | backend_service/app/api/faiss_service.py:39-40 | a fresh index is well formed, has the requested dimension and holds no entries |
| FlatIndex.SqDist | backend_service/app/api/faiss_service.py:39 | the index's metric, squared Euclidean distance, is never negative |
| FlatIndex.SqDistToSelf | backend_service/app/api/faiss_service.py:39 | a stored vector is at distance 0 from itself |
| FlatIndex.InsertByDistance | backend_service/app/api/faiss_service.py:77 | inserting into an ascending ranking keeps it ascending and adds exactly one element |
| FlatIndex.Rank | backend_service/app/api/faiss_service.py:77 | the ranking is ascending in distance and is a permutation of the entries' (id, distance) pairs |
| FlatIndex.PrefixIsNearest | backend_service/app/api/faiss_service.py:77 | a prefix of the ranking is a sub-multiset of the entries, and everything it omits, counted with multiplicity, is at least as far as everything it keeps |
| FlatIndex.Search | backend_service/app/api/faiss_service.py:76-77 | fails exactly when the query has the wrong dimension or k is not positive; otherwise returns k slots, in which the first min(k, count) are entries in ascending distance, every entry left out (counted with multiplicity, so duplicates are not conflated) is no nearer than any reported one, and the rest are (−1, FLT_MAX) sentinels |
| FlatIndex.PaddedRankingIsNearest | backend_service/app/api/faiss_service.py:77 | the nearest prefix of a ranking followed by sentinels has exactly k slots, is ascending, is drawn from the entries, and omits nothing nearer |
| FlatIndex.EveryEntryKeptOrNoNearer | backend_service/app/api/faiss_service.py:77 | each stored entry is either among the reported slots or no nearer than every reported slot |
| FlatIndex.AddWithIds | backend_service/app/api/faiss_service.py:60-61 | succeeds exactly when ids fit in 64 bits, vectors have the index's dimension and counts agree; then the count grows by len(ids), earlier entries are unchanged and the new entries are the given pairs in order |
| VectorDb.LoadIndex | backend_service/app/api/faiss_service.py:30-40 | a readable well-formed file yields its saved index; a missing or unreadable file yields an empty index of dimension 512; the result is always well formed |
| VectorDb.Open | backend_service/app/api/faiss_service.py:15-23 | construction keeps the file and holds exactly the index loading that file yields, which is well formed |
| VectorDb.SaveIndex | backend_service/app/api/faiss_service.py:42-50 | a successful write replaces the file by the current index; a failed write is swallowed and leaves the previous file |
| VectorDb.SaveThenLoad | backend_service/app/api/faiss_service.py:42-50 | a successful save is read back as the index that was saved |
| VectorDb.AddEmbeddings | backend_service/app/api/faiss_service.py:52-65 | a rejected insert leaves index and file unchanged; an accepted one appends exactly the pairs; after a successful write, reloading the file gives the new index; a failed write leaves the old file |
| VectorDb.Score | backend_service/app/api/faiss_service.py:80-93 | one match per result slot, in slot order, carrying that slot's label and the confidence of that slot's own distance |
| VectorDb.KeepAccepted | backend_service/app/api/faiss_service.py:93 | every kept match reaches the 0.8 bar, every input match that reaches it is kept, and the result is an order-preserving subsequence (and sub-multiset) of the input |
| VectorDb.KeepAcceptedCounts | backend_service/app/api/faiss_service.py:93 | each accepted match is kept exactly as many times as it occurs in the input, and a rejected one never |
| VectorDb.AcceptedAreExactlyTheClose | backend_service/app/api/faiss_service.py:81-93 | filtering the scored slots by confidence equals scoring the slots whose distance is below 1.0, in order |
| VectorDb.SearchEmbedding | backend_service/app/api/faiss_service.py:67-98 | a failing search (wrong dimension, k ≤ 0) yields []; at most min(k, count) matches; each has confidence 1.0 or 0.95 and carries the id of a stored entry within distance 1.0 of the query, paired with that entry's own confidence |
| VectorDb.MatchesComeFromEntries | backend_service/app/api/faiss_service.py:77-93 | sentinel slots never pass the filter: every accepted match is scored from a stored entry, and at most min(k, count) are accepted |
| VectorDb.AcceptedWithinFound | backend_service/app/api/faiss_service.py:77-93 | no more matches are accepted than real entries fill slots, min(k, count) |
| VectorDb.AcceptedMatchIsStored | backend_service/app/api/faiss_service.py:93 | each accepted match is the score of some stored entry closer than 1.0 |
| VectorDb.CloseSlotIsStored | backend_service/app/api/faiss_service.py:77 | a result slot closer than 1.0 is a stored entry's id and distance, never a sentinel |
| VectorDb.CloseOnlyOfPaddedPrefix | backend_service/app/api/faiss_service.py:77 | when only the first m slots are real entries, at most m slots are closer than 1.0 |
| VectorDb.SearchKeepsTheCloseInOrder | backend_service/app/api/faiss_service.py:77-94 | a successful search returns exactly the ranked slots closer than 1.0, each with its own confidence, as an order-preserving subsequence of the scored slots |
| VectorDb.NothingAcceptedMeansAllFar | backend_service/app/api/faiss_service.py:77-94 | an empty one-neighbour result means every stored vector is at distance at least 1.0 from the query |
| VectorDb.OnlyCloseEntryIsFound | backend_service/app/api/faiss_service.py:77-94 | if exactly one stored vector is closer than 1.0, a one-neighbour search reports exactly that entry with its confidence |
| VectorDb.OnlyCloseEntryIsNearest | backend_service/app/api/faiss_service.py:77 | in that situation the one slot of the raw search is that entry |
| VectorDb.CloseNeighbourIsTheOnlyClose | backend_service/app/api/faiss_service.py:77 | when one stored vector alone is closer than 1.0, every neighbour closer than 1.0 is that vector's |
| VectorDb.EmptyIndexFindsNobody | backend_service/app/api/faiss_service.py:67-98 | a fresh index recognises nobody, for every query and every k |
| VectorDb.TwoEntryScenario | backend_service/app/api/faiss_service.py:67-94 | with entries 0 and 1 at squared distance at least 1.0 from each other, searching for entry 0's vector with k = 2 returns only (0, 1.0) |
| VectorDb.RankOfAscendingPair | backend_service/app/api/faiss_service.py:77 | two entries already in ascending order keep that order in the ranking |
| VectorDb.KeepAcceptedOfNearFarPair | backend_service/app/api/faiss_service.py:93 | of a near slot and a far slot, only the near one survives the filter, at full confidence |
| Routes.GetDescription | backend_service/app/db/db.py:64-81 | a pair argument is rejected by the driver and the error swallowed, so it finds nothing; an integer id finds its row's text exactly when the row exists |
| Routes.DescriptionOr | backend_service/app/api/routes.py:55 | the reported description is the stored text exactly when the id has a row with non-empty text; a missing row, an empty text and a pair key (which the store rejects) all yield "No description" |
| Routes.AddDescription | backend_service/app/db/db.py:83-102 | the id gets a row; existing rows are never overwritten; a new id gets the given text |
| Routes.ErrorReply | backend_service/app/api/routes.py:74-76 | as written, every failure before the search is a 500 whose detail is the handler prefix followed by the exception text: the decoder message for an undecodable upload, "400: " and the rejection detail for no face or a failed alignment |
| Routes.ErrorRepliesAgreeOnlyOnUndecodable | backend_service/app/api/routes.py:36-76 | the as-written and intended error replies coincide exactly for an undecodable upload; for the two 400 rejections they always differ |
| Routes.ErrorReplyIntended | backend_service/app/api/routes.py:39-47 | "no face" and "alignment failed" reach the client as 400 with their own detail; an undecodable upload is a 500 |
| Routes.MatchGuardIsNonEmptiness | backend_service/app/api/routes.py:53 | the guard compares an (id, confidence) pair with −1, so it holds exactly when the result is non-empty |
| Routes.Register | backend_service/app/api/routes.py:62-72 | responds "New User", the submitted description, 0.5; stores the description under the current count; with an embedding of the index's dimension (and a count that still fits in 64 bits), appends exactly (count, embedding), writing through or keeping the old file; otherwise the index service is unchanged |
| Routes.AddNewPerson | backend_service/app/api/routes.py:22-76 | a failed extraction changes nothing and answers 500; a non-empty result changes nothing and answers with the pair-built name, "No description" and 0.95; an empty result registers |
| Routes.AddNewPersonIntended | backend_service/app/api/routes.py:51-60 | a match answers with the match's id, its stored description and 0.95, and stores nothing; the rejections answer 400 |
| Routes.FaceRecognize | backend_service/app/api/routes.py:79-129 | never changes state; a match answers with the first match's id, its description and its confidence (1.0 or 0.95, from a stored entry); no match answers "New User" with the prompt and 0.5; confidence is 0.5 exactly when no one is recognised; failures answer 500 |
| Routes.SequentialIdsAreDistinct | backend_service/app/api/routes.py:62-64 | ids minted as the entry count are pairwise distinct |
| Routes.StartupEstablishesInv | backend_service/app/api/faiss_service.py:30-40 | starting from a missing, unreadable or sequentially numbered file gives sequential ids in memory and on disk |
| Routes.AddNewPersonPreservesInv | backend_service/app/api/routes.py:51-72 | every add-new-person request keeps ids sequential, both in memory and in the file a restart would load |
| Routes.GuardsAgreeOnSequentialIds | backend_service/app/api/routes.py:53 | with sequential ids no reported id is −1, so the written guard and the intended id comparison agree |
| Routes.RegisteredFaceIsRecognised | backend_service/app/api/routes.py:62-118 | after an unmatched face is registered, recognising the same embedding reports the new id at confidence 1.0, also after a restart from the written file, with the submitted description when the id was free |
| Routes.NoFaceAnswers500 | backend_service/app/api/routes.py:39-76 | a photo without a face is answered 500 "Error adding user: 400: No face detected" (and the recognition analogue) |
| Routes.NoFaceAnswers400Intended | backend_service/app/api/routes.py:39-47 | under the intended handling the same photo is answered 400 "No face detected", and a failed alignment 400 "Failed to align the face" |
| Routes.ResubmittedFaceLosesDescription | backend_service/app/api/routes.py:53-59 | re-submitting a just-registered face to add-new-person reports "No description" under a pair-built name, whereas the intended handler reports the stored description under "User <id>" |
| Routes.ResubmissionAnswers | backend_service/app/api/routes.py:53-59 | for a face whose only match is stored id n with a non-empty description, the written handler names the pair and answers "No description", while the intended handler names n and answers the stored text |

## Left out

- Face detection, alignment and the embedding network are foreign neural-network calls. They are replaced by the `Extraction` input.
- Decoding of the uploaded file is also part of `Extraction`. An undecodable upload carries the decoder's message as an opaque string.
- The FAISS library's internals and binary file format are not modelled. The file is `Absent`, `Unreadable`, or `Written(index)`.
  - A written index that is not well formed reads as a load failure.
  - A failed write leaves the previous file. A torn write that corrupts the file is not modelled.
- Only the exact flat index the service creates is modelled. A file holding another index type, with approximate search, is not.
- Float32 arithmetic is replaced by exact reals: casting, rounding, NaN and infinities are not modelled.
- Tie order among equal distances is fixed by the model: the earlier-inserted entry ranks first. The library's own order among equal distances is not modelled.
- Response names are the `Name` datatype (`User(key)` or `NewUser`), not the formatted text. The decimal or tuple rendering of `f"User {…}"` is not modelled.
- The error detail assumes the web framework renders an HTTP exception as `"<status>: <detail>"`.
- The database connection (pool setup, a missing pool, query failures other than the rejected pair argument) is not modelled. `update_description`, `user_exists` and table creation are not used by the modelled handlers.
- Logging, the web framework's routing and upload parsing, and response-schema validation are not modelled. The "confidence between 0 and 1" note on the response schema is not enforced by the code.
- Concurrency is not modelled. Two simultaneous registrations can read the same entry count and mint the same id; every property here is about sequential requests.
- Only the routes' default `k = 1` is used by the handlers. `SearchEmbedding` is modelled for every `k`.

## Findings

| source | as written | input that shows it | evidently intended | confidence | as-written member | corrected member |
|---|---|---|---|---|---|---|
| backend_service/app/api/routes.py:53-59 | `user_id_index[0]` is an `(id, confidence)` pair. It is compared with −1, formatted into the name, and passed to `get_description`. The database driver rejects a pair as an integer argument, and the lookup swallows that error, so the reply is always "No description" | register a face with description "Alice", then submit the same photo to add-new-person: the reply is "No description" and the name is built from the pair | use the pair's id: name "User <id>" and the stored description "Alice" | high; not executed | Routes.AddNewPerson, Routes.ResubmittedFaceLosesDescription | Routes.AddNewPersonIntended |
| backend_service/app/api/routes.py:39-76 | the `HTTPException(400)` for "no face" and "alignment failed" is raised inside the `try` block, so the generic handler catches it and re-raises it as a 500 | a photo with no face: the reply is 500 "Error adding user: 400: No face detected" | 400 "No face detected" | high; not executed | Routes.ErrorReply, Routes.NoFaceAnswers500 | Routes.ErrorReplyIntended, Routes.NoFaceAnswers400Intended |
