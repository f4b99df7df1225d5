/** The vector chunk search with its one-way circuit breaker
    (services/vector_db_service.py). The ranking by cosine similarity is the
    store's job: the store is modelled by the rows its ranked query returns,
    already in rank order, and `LIMIT` keeps a prefix of them. What the
    service itself decides is modelled: which mode serves the call, when the
    breaker trips, how rows become records and how documents are de-duplicated. */
module VectorDb {
  import opened Optional
  import opened Seqs
  import Settings
  import Database

  /** A creation time, opaque to the service. */
  datatype Timestamp = Timestamp(seconds: int)

  /** A chunk as the service returns it: text, header and the parent document's id. */
  datatype ChunkRecord = ChunkRecord(text: string, header: string, documentId: int)

  /** A parent document as the service returns it. */
  datatype Document = Document(id: int, title: string, url: Option<string>, filePath: Option<string>, createdAt: Option<Timestamp>)

  /** One result row of the ranked query, in its column order: chunk text,
      chunk header, chunk's document id, document id, title, url, file path,
      creation time. */
  datatype Row = Row(
    text: Option<string>, header: Option<string>, chunkDocumentId: int,
    docId: int, title: Option<string>, url: Option<string>, filePath: Option<string>,
    createdAt: Option<Timestamp>)

  /** What the store does on one call: how `connect` goes, and either the
      full ranked row sequence (before `LIMIT`) or the message of the
      exception `execute` raises, a wrong embedding dimension included. */
  datatype Store = Store(env: Database.Env, ranked: Result<seq<Row>, string>)

  /** The service: its own connection cache and the breaker flag `_is_healthy`. */
  datatype Service = Service(db: Database.Manager, healthy: bool)

  datatype SearchResult = SearchResult(chunks: seq<ChunkRecord>, documents: seq<Document>)

  /** A fresh service starts healthy with nothing cached. */
  function NewService(dbPath: Option<string>): (s: Service)
    ensures s.healthy && s.db.cache.None?
  {
    Service(Database.NewManager(dbPath), true)
  }

  /** `top_k or settings.max_chunks`: both a missing and a zero `top_k` mean
      the configured default. */
  function EffectiveLimit(topK: Option<nat>): (k: nat)
    ensures k > 0
    ensures topK.Some? && topK.value != 0 ==> k == topK.value
    ensures topK.None? || topK == Some(0) ==> k == Settings.MaxChunks
  {
    if topK.Some? && topK.value != 0 then topK.value else Settings.MaxChunks
  }

  // ---------------------------------------------------------------------------
  // Mock payload
  // ---------------------------------------------------------------------------

  /** The fixed mock documents; both carry the time of the call. */
  function MockDocuments(now: Timestamp): seq<Document> {
    [ Document(1, "LEY_ISR_2024", Some("https://dof.gob.mx/isr"), Some("/docs/isr.pdf"), Some(now)),
      Document(2, "REGLAMENTO_SALUD", Some("https://dof.gob.mx/salud"), Some("/docs/salud.pdf"), Some(now)) ]
  }

  /** The fixed mock chunks, linked to the mock documents. */
  const MockChunks: seq<ChunkRecord> := [
    ChunkRecord("Artículo 1 Mock ISR...", "Art 1 - Obligaciones", 1),
    ChunkRecord("Artículo 5 Mock Salud...", "Art 5 - Seguridad", 2),
    ChunkRecord("Artículo 10 Mock Agrario...", "Art 10 - Tierras", 1)
  ]

  /** `_get_mock_data`: the first `min(3, k)` mock chunks and the first
      `min(2, k)` mock documents, in their fixed order; the two counts differ
      for k >= 3. */
  function MockData(limit: nat, now: Timestamp): (r: SearchResult)
    ensures |r.chunks| == Min(3, limit) && |r.documents| == Min(2, limit)
    ensures forall i :: 0 <= i < |r.chunks| ==> r.chunks[i] == MockChunks[i]
    ensures forall i :: 0 <= i < |r.documents| ==> r.documents[i] == MockDocuments(now)[i]
  {
    var docs := MockDocuments(now);
    SearchResult(MockChunks[..Min(|MockChunks|, limit)], docs[..Min(|docs|, limit)])
  }

  /** Every chunk of a result has its parent document in the same result. */
  ghost predicate ChunksReferToDocuments(r: SearchResult) {
    forall i :: 0 <= i < |r.chunks| ==>
      exists j :: 0 <= j < |r.documents| && r.documents[j].id == r.chunks[i].documentId
  }

  /** Every mock chunk points at a mock document that the same payload
      returns, whatever the limit. */
  lemma MockChunksReferToMockDocuments(limit: nat, now: Timestamp)
    ensures ChunksReferToDocuments(MockData(limit, now))
  {
    var r := MockData(limit, now);
    var docs := MockDocuments(now);
    assert docs[0].id == 1 && docs[1].id == 2;
    assert MockChunks[0].documentId == 1 && MockChunks[1].documentId == 2 && MockChunks[2].documentId == 1;
    forall i | 0 <= i < |r.chunks|
      ensures exists j :: 0 <= j < |r.documents| && r.documents[j].id == r.chunks[i].documentId
    {
      assert r.chunks[i] == MockChunks[i] && limit > i;
      var j := if i == 1 then 1 else 0;
      assert j < |r.documents| && r.documents[j] == docs[j];
      assert r.documents[j].id == r.chunks[i].documentId;
    }
    assert forall i :: 0 <= i < |r.chunks| ==> exists j :: 0 <= j < |r.documents| && r.documents[j].id == r.chunks[i].documentId;
    assert r == MockData(limit, now);
  }

  // ---------------------------------------------------------------------------
  // Row assembly
  // ---------------------------------------------------------------------------

  /** A row's chunk: missing text and header become empty strings. */
  function ChunkOf(row: Row): ChunkRecord {
    ChunkRecord(OrEmpty(row.text), OrEmpty(row.header), row.chunkDocumentId)
  }

  /** A row's document: a missing title becomes the empty string; url, path
      and time are passed through as they are. */
  function DocOf(row: Row): Document {
    Document(row.docId, OrEmpty(row.title), row.url, row.filePath, row.createdAt)
  }

  function RowDocId(row: Row): int {
    row.docId
  }

  /** The live result of a row sequence: one chunk per row, and each document
      the first time its id is seen. */
  function Assemble(rows: seq<Row>): (r: SearchResult)
    ensures |r.chunks| == |rows| && forall i :: 0 <= i < |rows| ==> r.chunks[i] == ChunkOf(rows[i])
    ensures r.documents == [] <==> rows == []
    ensures rows != [] ==> r.documents[0] == DocOf(rows[0])
  {
    assert rows != [] ==> FirstSeenFrom(rows, RowDocId, 0, {})[0] == rows[0];
    SearchResult(Map(ChunkOf, rows), Map(DocOf, FirstSeen(rows, RowDocId)))
  }

  /** The row loop of `search_similar_chunks`, with its `seen_docs` set. */
  method AssembleRows(rows: seq<Row>) returns (chunks: seq<ChunkRecord>, documents: seq<Document>)
    ensures SearchResult(chunks, documents) == Assemble(rows)
  {
    chunks := [];
    documents := [];
    var seen: set<int> := {};
    assert KeysBefore(rows, RowDocId, 0) == {};
    for i := 0 to |rows|
      invariant chunks == Map(ChunkOf, rows[..i])
      invariant seen == KeysBefore(rows, RowDocId, i)
      invariant documents + Map(DocOf, FirstSeenFrom(rows, RowDocId, i, seen)) == Map(DocOf, FirstSeen(rows, RowDocId))
    {
      var row := rows[i];
      assert rows[..i + 1] == rows[..i] + [row];
      chunks := chunks + [ChunkOf(row)];
      KeysBeforeStep(rows, RowDocId, i);
      if row.docId !in seen {
        var rest := FirstSeenFrom(rows, RowDocId, i + 1, seen + {row.docId});
        assert Map(DocOf, [row] + rest) == [DocOf(row)] + Map(DocOf, rest);
        documents := documents + [DocOf(row)];
        seen := seen + {row.docId};
      }
    }
    assert rows[..|rows|] == rows;
  }

  /** Live chunks match the rows one for one, in row order, with missing
      text and header shown as empty strings. */
  lemma LiveChunks(rows: seq<Row>)
    ensures |Assemble(rows).chunks| == |rows|
    ensures forall i :: 0 <= i < |rows| ==>
      Assemble(rows).chunks[i].text == (if rows[i].text.Some? then rows[i].text.value else "")
      && Assemble(rows).chunks[i].header == (if rows[i].header.Some? then rows[i].header.value else "")
      && Assemble(rows).chunks[i].documentId == rows[i].chunkDocumentId
  {
  }

  /** The chunk's and the document's id agree on every row: the query joins
      on `c.document_id = d.id`. */
  ghost predicate JoinConsistent(rows: seq<Row>) {
    forall i :: 0 <= i < |rows| ==> rows[i].chunkDocumentId == rows[i].docId
  }

  /** The ids of the documents of `rows`, as a set. */
  function DocumentIds(docs: seq<Document>): set<int> {
    set j | 0 <= j < |docs| :: docs[j].id
  }

  /** Live documents never repeat an id. */
  lemma LiveDocumentsDistinct(rows: seq<Row>)
    ensures var docs := Assemble(rows).documents;
      forall a, b :: 0 <= a < b < |docs| ==> docs[a].id != docs[b].id
  {
    FirstSeenDistinct(rows, RowDocId);
    var firsts := FirstSeen(rows, RowDocId);
    var docs := Assemble(rows).documents;
    forall a, b | 0 <= a < b < |docs| ensures docs[a].id != docs[b].id {
      assert docs[a].id == RowDocId(firsts[a]) && docs[b].id == RowDocId(firsts[b]);
    }
  }

  /** Each live document is built from the first row carrying its id, and
      the documents come in order of those rows: `idx` lists them. */
  lemma LiveDocumentsFirstRows(rows: seq<Row>) returns (idx: seq<nat>)
    ensures var docs := Assemble(rows).documents;
      && |idx| == |docs|
      && (forall j :: 0 <= j < |docs| ==>
            idx[j] < |rows| && docs[j] == DocOf(rows[idx[j]])
            && forall i :: 0 <= i < idx[j] ==> rows[i].docId != rows[idx[j]].docId)
      && (forall a, b :: 0 <= a < b < |idx| ==> idx[a] < idx[b])
  {
    var docs := Assemble(rows).documents;
    idx := FirstSeenIndices(rows, RowDocId);
    forall j | 0 <= j < |docs|
      ensures idx[j] < |rows| && docs[j] == DocOf(rows[idx[j]])
      ensures forall i :: 0 <= i < idx[j] ==> rows[i].docId != rows[idx[j]].docId
    {
      assert IsFirst(rows, RowDocId, idx[j]);
    }
  }

  /** The live documents carry exactly the document ids of the rows; with a
      consistent join, exactly the chunks' document ids. */
  lemma LiveDocumentIds(rows: seq<Row>)
    ensures DocumentIds(Assemble(rows).documents) == set i | 0 <= i < |rows| :: rows[i].docId
    ensures JoinConsistent(rows) ==>
      DocumentIds(Assemble(rows).documents) == set i | 0 <= i < |rows| :: Assemble(rows).chunks[i].documentId
  {
    var docs := Assemble(rows).documents;
    var firsts := FirstSeen(rows, RowDocId);
    FirstSeenKeys(rows, RowDocId);
    assert DocumentIds(docs) == KeysBefore(firsts, RowDocId, |firsts|) by {
      forall k | k in DocumentIds(docs) ensures k in KeysBefore(firsts, RowDocId, |firsts|) {
        var j :| 0 <= j < |docs| && docs[j].id == k;
        assert RowDocId(firsts[j]) == k;
      }
      forall k | k in KeysBefore(firsts, RowDocId, |firsts|) ensures k in DocumentIds(docs) {
        var j :| 0 <= j < |firsts| && RowDocId(firsts[j]) == k;
        assert docs[j].id == k;
      }
    }
    var rowIds := set i | 0 <= i < |rows| :: rows[i].docId;
    assert rowIds == KeysBefore(rows, RowDocId, |rows|) by {
      forall k | k in rowIds ensures k in KeysBefore(rows, RowDocId, |rows|) {
        var i :| 0 <= i < |rows| && rows[i].docId == k;
        assert RowDocId(rows[i]) == k;
      }
    }
    if JoinConsistent(rows) {
      var chunkIds := set i | 0 <= i < |rows| :: Assemble(rows).chunks[i].documentId;
      assert chunkIds == rowIds by {
        forall k | k in chunkIds ensures k in rowIds {
          var i :| 0 <= i < |rows| && Assemble(rows).chunks[i].documentId == k;
          assert rows[i].docId == k;
        }
        forall k | k in rowIds ensures k in chunkIds {
          var i :| 0 <= i < |rows| && rows[i].docId == k;
          assert Assemble(rows).chunks[i].documentId == k;
        }
      }
    }
  }

  /** There are never more documents than chunks. */
  lemma FewerDocumentsThanChunks(rows: seq<Row>)
    ensures |Assemble(rows).documents| <= |Assemble(rows).chunks|
  {
    var idx := FirstSeenIndices(rows, RowDocId);
    StrictlyIncreasingBounded(idx, |rows|);
  }

  lemma {:induction false} StrictlyIncreasingBounded(idx: seq<nat>, n: nat)
    requires forall j :: 0 <= j < |idx| ==> idx[j] < n
    requires forall a, b :: 0 <= a < b < |idx| ==> idx[a] < idx[b]
    ensures |idx| <= n
    decreases |idx|
  {
    if |idx| > 0 {
      var last := idx[|idx| - 1];
      StrictlyIncreasingBounded(idx[..|idx| - 1], last);
    }
  }

  // ---------------------------------------------------------------------------
  // Search
  // ---------------------------------------------------------------------------

  /** `LIMIT k` over the ranked rows: the first k of them. */
  function Take(rows: seq<Row>, k: nat): (r: seq<Row>)
    ensures |r| == Min(|rows|, k) && r == rows[..|r|]
  {
    rows[..Min(|rows|, k)]
  }

  /** `search_similar_chunks(query_embedding, top_k)`: force-mock first, then
      the open breaker, then the live query; a failure of `connect` or of the
      query trips the breaker and serves the mock payload. Never raises. */
  function Search(svc: Service, forceMock: bool, store: Store, topK: Option<nat>, now: Timestamp): (r: (Service, SearchResult))
    ensures forceMock ==> r == (svc, MockData(EffectiveLimit(topK), now))
    ensures !forceMock && !svc.healthy ==> r == (svc, MockData(EffectiveLimit(topK), now))
    ensures r.0.healthy ==> svc.healthy
    ensures !forceMock && svc.healthy ==> r.0.db == Database.Connect(svc.db, store.env).manager
    ensures !forceMock && svc.healthy && (Database.Connect(svc.db, store.env).outcome.Failure? || store.ranked.Failure?) ==>
      !r.0.healthy && r.1 == MockData(EffectiveLimit(topK), now)
    ensures !forceMock && svc.healthy && Database.Connect(svc.db, store.env).outcome.Success? && store.ranked.Success? ==>
      r.0.healthy && r.1 == Assemble(Take(store.ranked.value, EffectiveLimit(topK)))
  {
    var k := EffectiveLimit(topK);
    if forceMock then (svc, MockData(k, now))
    else if !svc.healthy then (svc, MockData(k, now))
    else
      var step := Database.Connect(svc.db, store.env);
      if step.outcome.Failure? then (Service(step.manager, false), MockData(k, now))
      else
        match store.ranked
        case Failure(_) => (Service(step.manager, false), MockData(k, now))
        case Success(ranked) => (Service(step.manager, true), Assemble(Take(ranked, k)))
  }

  /** A live answer has at most k chunks (and so at most k documents), taken
      from the front of the ranking in rank order. */
  lemma LiveLimit(svc: Service, store: Store, topK: Option<nat>, now: Timestamp)
    requires svc.healthy && Database.Connect(svc.db, store.env).outcome.Success? && store.ranked.Success?
    ensures var r := Search(svc, false, store, topK, now).1;
      && |r.chunks| <= EffectiveLimit(topK)
      && |r.documents| <= EffectiveLimit(topK)
      && forall i :: 0 <= i < |r.chunks| ==> r.chunks[i] == ChunkOf(store.ranked.value[i])
  {
    var rows := Take(store.ranked.value, EffectiveLimit(topK));
    FewerDocumentsThanChunks(rows);
  }

  /** `top_k = 0` is not an empty request: it serves the default limit. */
  lemma ZeroTopKMeansDefault(svc: Service, forceMock: bool, store: Store, now: Timestamp)
    ensures Search(svc, forceMock, store, Some(0), now) == Search(svc, forceMock, store, None, now)
    ensures Search(svc, forceMock, store, Some(0), now) == Search(svc, forceMock, store, Some(Settings.MaxChunks), now)
  {
  }

  /** One call of a sequence of searches. */
  datatype Call = Call(forceMock: bool, store: Store, topK: Option<nat>, now: Timestamp)

  /** Runs the calls one after another on the same service. */
  function Run(svc: Service, calls: seq<Call>): (r: (Service, seq<SearchResult>))
    ensures |r.1| == |calls|
    decreases |calls|
  {
    if |calls| == 0 then (svc, [])
    else
      var c := calls[0];
      var first := Search(svc, c.forceMock, c.store, c.topK, c.now);
      var rest := Run(first.0, calls[1..]);
      (rest.0, [first.1] + rest.1)
  }

  /** Each call of `calls` was answered with the mock payload for its own limit and time. */
  ghost predicate AllMocks(calls: seq<Call>, results: seq<SearchResult>) {
    |results| == |calls|
    && forall i :: 0 <= i < |calls| ==> results[i] == MockData(EffectiveLimit(calls[i].topK), calls[i].now)
  }

  lemma AllMocksCons(c: Call, calls: seq<Call>, r: SearchResult, results: seq<SearchResult>)
    requires r == MockData(EffectiveLimit(c.topK), c.now) && AllMocks(calls, results)
    ensures AllMocks([c] + calls, [r] + results)
  {
    forall i | 0 <= i < |calls| + 1
      ensures ([r] + results)[i] == MockData(EffectiveLimit(([c] + calls)[i].topK), ([c] + calls)[i].now)
    {
      if i > 0 {
        assert ([r] + results)[i] == results[i - 1] && ([c] + calls)[i] == calls[i - 1];
      }
    }
  }

  /** Running `[c] + rest` is `c` followed by `rest` on the service `c` leaves. */
  lemma RunCons(svc: Service, c: Call, rest: seq<Call>)
    ensures var first := Search(svc, c.forceMock, c.store, c.topK, c.now);
      Run(svc, [c] + rest) == (Run(first.0, rest).0, [first.1] + Run(first.0, rest).1)
  {
    assert ([c] + rest)[0] == c && ([c] + rest)[1..] == rest;
  }

  /** Once the breaker is open it stays open: every later call serves the
      mock payload and leaves the service untouched, whatever the store does. */
  lemma {:induction false} OpenBreakerStaysOpen(svc: Service, calls: seq<Call>)
    requires !svc.healthy
    ensures Run(svc, calls).0 == svc
    ensures AllMocks(calls, Run(svc, calls).1)
    decreases |calls|
  {
    if |calls| > 0 {
      var c := calls[0];
      OpenBreakerStaysOpen(svc, calls[1..]);
      RunCons(svc, c, calls[1..]);
      assert [c] + calls[1..] == calls;
      AllMocksCons(c, calls[1..], Search(svc, c.forceMock, c.store, c.topK, c.now).1, Run(svc, calls[1..]).1);
    }
  }

  /** A single failing live call trips the breaker for good: it and every
      call after it are served from the mock payload, even if the store recovers. */
  lemma FailureTripsForGood(svc: Service, fail: Call, later: seq<Call>)
    requires svc.healthy && !fail.forceMock
    requires Database.Connect(svc.db, fail.store.env).outcome.Failure? || fail.store.ranked.Failure?
    ensures !Run(svc, [fail] + later).0.healthy
    ensures AllMocks([fail] + later, Run(svc, [fail] + later).1)
  {
    var first := Search(svc, fail.forceMock, fail.store, fail.topK, fail.now);
    assert !first.0.healthy && first.1 == MockData(EffectiveLimit(fail.topK), fail.now);
    RunCons(svc, fail, later);
    OpenBreakerStaysOpen(first.0, later);
    AllMocksCons(fail, later, first.1, Run(first.0, later).1);
  }

  /** The breaker only ever moves from healthy to unhealthy. */
  lemma {:induction false} HealthNeverRecovers(svc: Service, calls: seq<Call>)
    ensures Run(svc, calls).0.healthy ==> svc.healthy
    decreases |calls|
  {
    if |calls| > 0 {
      var c := calls[0];
      HealthNeverRecovers(Search(svc, c.forceMock, c.store, c.topK, c.now).0, calls[1..]);
    }
  }

  /** A store whose file is missing at start-up: `top_k = 3` gives the three
      mock chunks and both mock documents, on the first call and every call after. */
  lemma UnreachableStoreServesMocks(dbPath: Option<string>, store: Store, now: Timestamp, later: seq<Call>)
    requires !store.env.fileExists
    ensures var r := Run(NewService(dbPath), [Call(false, store, Some(3), now)] + later);
      && r.1[0].chunks == MockChunks
      && |r.1[0].documents| == 2
      && AllMocks([Call(false, store, Some(3), now)] + later, r.1)
  {
    FailureTripsForGood(NewService(dbPath), Call(false, store, Some(3), now), later);
    assert MockChunks[..3] == MockChunks;
  }
}
