/** The mock retrieval-augmented answer pipeline (rag_service.py): chunk
    retrieval from a fixed list, the templated answer, grouping of chunks into
    document sources by type, and `query`, which ties them to the accordion
    renderer and falls back to an apology on any error. */
module RagService {
  import opened Optional
  import opened Strings
  import opened Seqs
  import opened Schemas
  import Settings
  import Database
  import ContextRenderer

  // ---------------------------------------------------------------------------
  // Initialisation
  // ---------------------------------------------------------------------------

  /** The service: its `_initialized` flag and the connection cache it probes. */
  datatype Rag = Rag(initialized: bool, db: Database.Manager)

  /** `initialize`: a no-op once initialised; otherwise it tests the database
      connection, ignores the outcome and becomes initialised. */
  function Initialize(st: Rag, env: Database.Env): (r: Rag)
    ensures r.initialized
    ensures st.initialized ==> r == st
    ensures !st.initialized ==> r.db == Database.TestConnection(st.db, env).0
  {
    if st.initialized then st
    else Rag(true, Database.TestConnection(st.db, env).0)
  }

  /** A second `initialize` does nothing, whatever the database does then. */
  lemma InitializeIdempotent(st: Rag, env1: Database.Env, env2: Database.Env)
    ensures Initialize(Initialize(st, env1), env2) == Initialize(st, env1)
  {
  }

  /** A failing connection test does not stop initialisation. */
  lemma InitializeDespiteDatabaseError(st: Rag, env: Database.Env)
    requires !st.initialized && Database.TestConnection(st.db, env).1.TestError?
    ensures Initialize(st, env).initialized
    ensures Initialize(st, env).db == Database.TestConnection(st.db, env).0
  {
  }

  // ---------------------------------------------------------------------------
  // Chunk retrieval
  // ---------------------------------------------------------------------------

  // The texts of the predefined chunks.

  const LeyText: string :=
    "LEY DEL IMPUESTO SOBRE LA RENTA - " +
    "Artículo 1.- Las personas físicas y las " +
    "morales están obligadas al pago del " +
    "impuesto sobre la renta en los " +
    "siguientes casos: I.- Las residentes en " +
    "México, respecto de todos sus ingresos, " +
    "cualquiera que sea la ubicación de la " +
    "fuente de riqueza de donde procedan."

  const ReglamentoText: string :=
    "REGLAMENTO DE SEGURIDAD Y SALUD EN EL " +
    "TRABAJO - Artículo 5.- Los patrones " +
    "deberán implementar un sistema de " +
    "gestión de seguridad y salud en el " +
    "trabajo que incluya la identificación de " +
    "peligros y evaluación de riesgos."

  const NormaText: string :=
    "NORMA Oficial Mexicana " +
    "NOM-001-SEMARNAT-2021 - Que establece " +
    "los límites máximos permisibles de " +
    "contaminantes en las descargas de aguas " +
    "residuales en aguas y bienes nacionales."

  /** The predefined chunks, one per document type. */
  const MockChunks: seq<ChunkData> := [
    ChunkData(LeyText, LeyHeader, "LEY"),
    ChunkData(ReglamentoText, ReglamentoHeader, "REGLAMENTO"),
    ChunkData(NormaText, NormaHeader, "NORMA")
  ]

  const LeyHeader: string := "Artículo 1 - " + "Obligaciones fiscales " + "generales"
  const ReglamentoHeader: string := "Artículo 5 - " + "Sistemas de gestión " + "laboral"
  const NormaHeader: string := "NOM-001-SEMARNAT-2021" + " - Límites de " + "contaminantes"

  /** `search_chunks(embedding, top_k)`: only a missing `top_k` takes the
      default, so zero asks for nothing; the result is a prefix of the fixed list. */
  function SearchChunks(topK: Option<nat>): (r: seq<ChunkData>)
    ensures |r| == Min(|MockChunks|, if topK.Some? then topK.value else Settings.MaxChunks)
    ensures forall i :: 0 <= i < |r| ==> r[i] == MockChunks[i]
  {
    var k := if topK.None? then Settings.MaxChunks else topK.value;
    MockChunks[..Min(|MockChunks|, k)]
  }

  /** Asking for more never loses a chunk: a smaller request is a prefix of a larger one. */
  lemma SearchChunksMonotone(a: nat, b: nat)
    requires a <= b
    ensures SearchChunks(Some(a)) <= SearchChunks(Some(b))
  {
  }

  /** Zero means an empty result here; an absent `top_k` takes `max_chunks` (5),
      which the three predefined chunks cap at three. */
  lemma SearchChunksZeroAndDefault()
    ensures SearchChunks(Some(0)) == []
    ensures SearchChunks(None) == MockChunks
  {
    assert MockChunks[..3] == MockChunks;
  }

  // ---------------------------------------------------------------------------
  // Answer text
  // ---------------------------------------------------------------------------

  /** The bullet line of one chunk. */
  function SummaryLine(c: ChunkData): string {
    "• " + c.docType + ": " + c.header
  }

  // The long template texts are written as concatenations of short pieces,
  // which lets the verifier reason about their individual characters.

  const IntroStart: string :=
    "Basándome en la " + "información " + "encontrada en los " + "documentos del DOF, "

  const IntroAsk: string :=
    "puedo ayudarte con tu " + "consulta sobre: \""

  const IntroPrefix: string := IntroStart + IntroAsk

  function IntroLine(query: string): string {
    IntroPrefix + query + "\""
  }

  function CountLine(n: nat): string {
    "He encontrado " + NatToString(n) + " documentos relevantes:"
  }

  /** The opening both notes share. */
  const SimulatedNotice: string :=
    "NOTA: Esta es una " + "respuesta simulada " + "para pruebas de " + "integración. En el " +
    "modo de producción, "

  const FoundPlanStart: string :=
    "aquí se generaría una " + "respuesta detallada " + "utilizando "

  const FoundPlanEnd: string :=
    "inteligencia " + "artificial basada en " + "el contenido " + "específico de los " +
    "documentos " + "encontrados."

  const FoundNote: string := SimulatedNotice + FoundPlanStart + FoundPlanEnd

  const ClosingStart: string :=
    "Los documentos " + "analizados contienen " + "información oficial " + "publicada en el "

  const ClosingEnd: string :=
    "Diario Oficial de la " + "Federación que puede " + "ser relevante para tu " + "consulta."

  const ClosingLine: string := ClosingStart + ClosingEnd

  const NotFoundPrefix: string := "No encontré documentos específicos " + "relacionados con tu consulta: " + "\""

  const NotFoundNote: string :=
    SimulatedNotice + "el sistema buscaría " + "en la base de datos " + "completa de documentos " +
    "del DOF y " + "proporcionaría " + "información relevante " + "o sugerencias " + "alternativas."

  /** The lines of the found answer: the introduction, an empty line, the
      count, one bullet per chunk, and the note and closing line each after an
      empty line. */
  function FoundLines(query: string, chunks: seq<ChunkData>): seq<string> {
    [IntroLine(query), "", CountLine(|chunks|)] + Map(SummaryLine, chunks) + ["", FoundNote, "", ClosingLine]
  }

  /** The not-found template around the query. */
  function NotFoundTemplate(prefix: string, query: string, note: string): string {
    prefix + query + "\"\n\n" + note
  }

  /** The answer template before `.strip()`. The found template is a
      multi-line text whose bullet block is the bullets joined by line
      breaks, so it is exactly its lines joined by line breaks. */
  function RawAnswer(query: string, chunks: seq<ChunkData>): string {
    if |chunks| > 0 then Join(FoundLines(query, chunks), '\n')
    else
      NotFoundTemplate(NotFoundPrefix, query, NotFoundNote)
  }

  /** `generate_answer(query, context_chunks)`: the template, stripped.
      `.strip()` changes nothing, so the answer is the template itself, and
      its opening tells the two branches apart. */
  function GenerateAnswer(query: string, chunks: seq<ChunkData>): (r: string)
    ensures r == RawAnswer(query, chunks)
    ensures |chunks| > 0 <==> IntroPrefix <= r
    ensures |chunks| == 0 <==> NotFoundPrefix <= r
  {
    TemplateTexts();
    RawAnswerEnds(query, chunks);
    var raw := RawAnswer(query, chunks);
    assert raw[0] == (if |chunks| > 0 then IntroPrefix[0] else NotFoundPrefix[0]);
    TrimUnchanged(raw, Python);
    Trim(raw, Python)
  }

  lemma TemplateTexts()
    ensures |IntroPrefix| > 0 && IntroPrefix[0] == 'B'
    ensures |NotFoundPrefix| > 0 && NotFoundPrefix[0] == 'N'
    ensures |ClosingLine| > 0 && ClosingLine[|ClosingLine| - 1] == '.'
    ensures |NotFoundNote| > 0 && NotFoundNote[|NotFoundNote| - 1] == '.'
  {
  }

  lemma IntroStartHasNoBreak()
    ensures '\n' !in IntroStart
  {
  }

  lemma IntroAskHasNoBreak()
    ensures '\n' !in IntroAsk
  {
  }

  lemma SimulatedNoticeHasNoBreak()
    ensures '\n' !in SimulatedNotice
  {
  }

  lemma FoundPlanStartHasNoBreak()
    ensures '\n' !in FoundPlanStart
  {
  }

  lemma FoundPlanEndHasNoBreak()
    ensures '\n' !in FoundPlanEnd
  {
  }

  lemma ClosingStartHasNoBreak()
    ensures '\n' !in ClosingStart
  {
  }

  lemma ClosingEndHasNoBreak()
    ensures '\n' !in ClosingEnd
  {
  }

  /** No fixed line of the found template holds a line break. */
  lemma TemplateLinesHaveNoBreak()
    ensures '\n' !in IntroPrefix && '\n' !in FoundNote && '\n' !in ClosingLine
  {
    IntroStartHasNoBreak();
    IntroAskHasNoBreak();
    SimulatedNoticeHasNoBreak();
    FoundPlanStartHasNoBreak();
    FoundPlanEndHasNoBreak();
    ClosingStartHasNoBreak();
    ClosingEndHasNoBreak();
  }

  lemma NotFoundTemplateEnds(prefix: string, query: string, note: string)
    requires |note| > 0
    ensures var t := NotFoundTemplate(prefix, query, note);
      prefix <= t && t[|t| - 1] == note[|note| - 1]
  {
  }

  /** The template starts with a letter and ends with a full stop. */
  lemma RawAnswerEnds(query: string, chunks: seq<ChunkData>)
    ensures var raw := RawAnswer(query, chunks);
      && |raw| > 0 && raw[|raw| - 1] == '.'
      && (|chunks| > 0 ==> IntroPrefix <= raw)
      && (|chunks| == 0 ==> NotFoundPrefix <= raw)
  {
    TemplateTexts();
    if |chunks| > 0 {
      var lines := FoundLines(query, chunks);
      assert IntroPrefix <= IntroLine(query) == lines[0];
      JoinFirst(lines, '\n');
      JoinLast(lines, '\n');
    } else {
      NotFoundTemplateEnds(NotFoundPrefix, query, NotFoundNote);
    }
  }

  lemma CountLineHasNoBreak(n: nat)
    ensures '\n' !in CountLine(n)
  {
  }

  lemma FoundLinesHaveNoBreak(query: string, chunks: seq<ChunkData>)
    requires '\n' !in query
    requires forall i :: 0 <= i < |chunks| ==> '\n' !in chunks[i].docType && '\n' !in chunks[i].header
    ensures forall i :: 0 <= i < |FoundLines(query, chunks)| ==> '\n' !in FoundLines(query, chunks)[i]
  {
    TemplateLinesHaveNoBreak();
    CountLineHasNoBreak(|chunks|);
    var lines := FoundLines(query, chunks);
    forall i | 0 <= i < |lines| ensures '\n' !in lines[i] {
      if 3 <= i < 3 + |chunks| {
        assert lines[i] == SummaryLine(chunks[i - 3]);
      }
    }
  }

  /** Read line by line, the found answer is the introduction quoting the
      query, the number of chunks, one `• type: header` line per chunk in
      order, and the fixed note; this holds when no piece holds a line break. */
  lemma AnswerLines(query: string, chunks: seq<ChunkData>)
    requires |chunks| > 0 && '\n' !in query
    requires forall i :: 0 <= i < |chunks| ==> '\n' !in chunks[i].docType && '\n' !in chunks[i].header
    ensures Split(GenerateAnswer(query, chunks), '\n') == FoundLines(query, chunks)
    ensures Split(GenerateAnswer(query, chunks), '\n')[0] == IntroLine(query)
    ensures Split(GenerateAnswer(query, chunks), '\n')[2] == CountLine(|chunks|)
    ensures forall i :: 0 <= i < |chunks| ==>
      Split(GenerateAnswer(query, chunks), '\n')[3 + i] == SummaryLine(chunks[i])
  {
    var lines := FoundLines(query, chunks);
    FoundLinesHaveNoBreak(query, chunks);
    SplitJoin(lines, '\n');
    assert Split(GenerateAnswer(query, chunks), '\n') == lines;
    FoundLinesShape(query, chunks);
  }

  /** Where each piece of the found template sits among its lines. */
  lemma FoundLinesShape(query: string, chunks: seq<ChunkData>)
    ensures var lines := FoundLines(query, chunks);
      && |lines| == 7 + |chunks|
      && lines[0] == IntroLine(query) && lines[2] == CountLine(|chunks|)
      && forall i :: 0 <= i < |chunks| ==> lines[3 + i] == SummaryLine(chunks[i])
  {
    var lines := FoundLines(query, chunks);
    forall i | 0 <= i < |chunks| ensures lines[3 + i] == SummaryLine(chunks[i]) {
      assert lines[3 + i] == Map(SummaryLine, chunks)[i];
    }
  }

  /** The count line names the number of chunks and nothing else: different
      counts give different lines. */
  lemma CountLineDetermines(m: nat, n: nat)
    ensures CountLine(m) == CountLine(n) ==> m == n
  {
    if CountLine(m) == CountLine(n) {
      var p := "He encontrado ";
      var sfx := " documentos relevantes:";
      assert CountLine(m)[|p|..|CountLine(m)| - |sfx|] == NatToString(m);
      assert CountLine(n)[|p|..|CountLine(n)| - |sfx|] == NatToString(n);
      NatToStringInjective(m, n);
    }
  }

  // ---------------------------------------------------------------------------
  // Document sources
  // ---------------------------------------------------------------------------

  function DocType(c: ChunkData): string {
    c.docType
  }

  /** The chunks of one type, in their original order. */
  function ChunksOfType(chunks: seq<ChunkData>, docType: string): (r: seq<ChunkData>)
    ensures |r| <= |chunks|
    ensures forall i :: 0 <= i < |r| ==> r[i].docType == docType
    decreases |chunks|
  {
    if |chunks| == 0 then []
    else (if chunks[0].docType == docType then [chunks[0]] else []) + ChunksOfType(chunks[1..], docType)
  }

  /** Filtering a concatenation filters each half: the order of the chunks is kept. */
  lemma {:induction false} ChunksOfTypeAppend(a: seq<ChunkData>, b: seq<ChunkData>, docType: string)
    ensures ChunksOfType(a + b, docType) == ChunksOfType(a, docType) + ChunksOfType(b, docType)
    decreases |a|
  {
    if |a| > 0 {
      assert (a + b)[1..] == a[1..] + b;
      ChunksOfTypeAppend(a[1..], b, docType);
    } else {
      assert a + b == b;
    }
  }

  /** The address of a DOF note. */
  function NotaUrl(code: string): string {
    "https://dof.gob.mx/" + "nota_detalle.php?codigo=" + code
  }

  /** The document metadata of a type. */
  datatype DocMeta = DocMeta(title: string, publicationDate: string, url: string)

  /** The per-type metadata: LEY and REGLAMENTO have their own entries; any
      other type gets the NOM entry. */
  function MetaFor(docType: string): (m: DocMeta)
    ensures docType == "LEY" ==>
      m.title == "Ley del Impuesto Sobre la Renta" && m.url == NotaUrl("5678901")
      && m.publicationDate == "15 de enero de 2024"
    ensures docType == "REGLAMENTO" ==>
      m.title == "Reglamento de Seguridad y Salud " + "en el Trabajo" && m.url == NotaUrl("5678902")
      && m.publicationDate == "20 de febrero de 2024"
    ensures docType != "LEY" && docType != "REGLAMENTO" ==>
      m.title == "NOM-001-SEMARNAT-2021" && m.url == NotaUrl("5678903")
      && m.publicationDate == "10 de marzo de 2024"
  {
    if docType == "LEY" then
      DocMeta("Ley del Impuesto Sobre la Renta", "15 de enero de 2024",
        NotaUrl("5678901"))
    else if docType == "REGLAMENTO" then
      DocMeta("Reglamento de Seguridad y Salud " + "en el Trabajo", "20 de febrero de 2024",
        NotaUrl("5678902"))
    else
      DocMeta("NOM-001-SEMARNAT-2021", "10 de marzo de 2024",
        NotaUrl("5678903"))
  }

  /** Every type other than LEY and REGLAMENTO shares the NORMA entry, and the
      three entries differ in title, date and address. */
  lemma MetaForEntries(docType: string)
    ensures docType != "LEY" && docType != "REGLAMENTO" ==> MetaFor(docType) == MetaFor("NORMA")
    ensures var ley := MetaFor("LEY");
      var reglamento := MetaFor("REGLAMENTO");
      var norma := MetaFor("NORMA");
      && ley.title != reglamento.title && ley.title != norma.title && reglamento.title != norma.title
      && ley.publicationDate != reglamento.publicationDate && ley.publicationDate != norma.publicationDate
      && reglamento.publicationDate != norma.publicationDate
      && ley.url != reglamento.url && ley.url != norma.url && reglamento.url != norma.url
  {
    var ley := MetaFor("LEY");
    var reglamento := MetaFor("REGLAMENTO");
    var norma := MetaFor("NORMA");
    assert ley.title[0] == 'L' && reglamento.title[0] == 'R' && norma.title[0] == 'N';
    assert ley.publicationDate[6] == 'e' && reglamento.publicationDate[6] == 'f' && norma.publicationDate[6] == 'm';
    var at := |NotaUrl("")| + 6;
    assert ley.url[at] == '1' && reglamento.url[at] == '2' && norma.url[at] == '3';
  }

  /** The source of one group. */
  function SourceFor(chunks: seq<ChunkData>, docType: string): DocumentSource {
    var meta := MetaFor(docType);
    DocumentSource(meta.title, ChunksOfType(chunks, docType), Some(meta.url), Some(meta.publicationDate),
      Some("Reciente"), Some("🟢"), map["doc_type" := docType])
  }

  /** One source per key, in key order. */
  function SourcesFor(chunks: seq<ChunkData>, keys: seq<string>): (r: seq<DocumentSource>)
    ensures |r| == |keys|
    ensures forall i :: 0 <= i < |keys| ==> r[i] == SourceFor(chunks, keys[i])
    decreases |keys|
  {
    if |keys| == 0 then [] else [SourceFor(chunks, keys[0])] + SourcesFor(chunks, keys[1..])
  }

  /** The group keys: each document type once, in first-seen order. */
  function GroupKeys(chunks: seq<ChunkData>): seq<string> {
    Map(DocType, FirstSeen(chunks, DocType))
  }

  /** `_create_document_sources(chunks)`: no chunks, no sources; otherwise each
      source holds exactly the chunks of the type it is tagged with, carries
      that type's title and address, and is dated and marked recent. */
  function CreateDocumentSources(chunks: seq<ChunkData>): (r: seq<DocumentSource>)
    ensures r == [] <==> chunks == []
    ensures forall j :: 0 <= j < |r| ==>
      && r[j].chunks == ChunksOfType(chunks, TypeTag(r[j]))
      && r[j].title == MetaFor(TypeTag(r[j])).title
      && r[j].url == Some(MetaFor(TypeTag(r[j])).url)
      && ContextRenderer.AgeText(r[j]) == MetaFor(TypeTag(r[j])).publicationDate + " (Reciente) 🟢"
  {
    assert chunks != [] ==> |FirstSeenFrom(chunks, DocType, 0, {})| > 0;
    SourceForFields(chunks);
    SourcesFor(chunks, GroupKeys(chunks))
  }

  /** A group's source is tagged with its type, and its age row shows the
      type's date as recent. */
  lemma SourceForFields(chunks: seq<ChunkData>)
    ensures forall k {:trigger SourceFor(chunks, k)} ::
      (TypeTag(SourceFor(chunks, k)) == k
       && ContextRenderer.AgeText(SourceFor(chunks, k)) == MetaFor(k).publicationDate + " (Reciente) 🟢")
  {
    forall k
      ensures TypeTag(SourceFor(chunks, k)) == k
      ensures ContextRenderer.AgeText(SourceFor(chunks, k)) == MetaFor(k).publicationDate + " (Reciente) 🟢"
    {
      SourceForAt(chunks, k);
    }
  }

  lemma SourceForAt(chunks: seq<ChunkData>, k: string)
    ensures TypeTag(SourceFor(chunks, k)) == k
    ensures ContextRenderer.AgeText(SourceFor(chunks, k)) == MetaFor(k).publicationDate + " (Reciente) 🟢"
  {
    var source := SourceFor(chunks, k);
    var date := MetaFor(k).publicationDate;
    assert source.ageDescription == Some("Reciente") && source.ageEmoji == Some("🟢");
    assert source.publicationDate == Some(date);
    RecentAgeRow(date);
  }

  /** The age row of a recent source, spelt as one literal. */
  lemma RecentAgeRow(date: string)
    ensures date + " (" + "Reciente" + ") " + "🟢" == date + " (Reciente) 🟢"
  {
    assert " (" + "Reciente" + ") " + "🟢" == " (Reciente) 🟢";
  }

  /** The document type a source is tagged with. */
  function TypeTag(source: DocumentSource): string {
    if "doc_type" in source.metadata then source.metadata["doc_type"] else ""
  }

  /** The `j`-th source is the group of the `j`-th key and is tagged with it. */
  lemma SourceTags(chunks: seq<ChunkData>)
    ensures var sources := CreateDocumentSources(chunks);
      var keys := GroupKeys(chunks);
      && |sources| == |keys|
      && forall j :: 0 <= j < |sources| ==>
           sources[j] == SourceFor(chunks, keys[j]) && TypeTag(sources[j]) == keys[j]
  {
  }

  /** No two sources carry the same document type. */
  lemma SourcesHaveDistinctTypes(chunks: seq<ChunkData>)
    ensures var sources := CreateDocumentSources(chunks);
      forall a, b :: 0 <= a < b < |sources| ==> TypeTag(sources[a]) != TypeTag(sources[b])
  {
    SourceTags(chunks);
    GroupKeysDistinct(chunks);
  }

  /** Every chunk's document type has a source. */
  lemma SourcesCoverTypes(chunks: seq<ChunkData>)
    ensures var sources := CreateDocumentSources(chunks);
      forall i :: 0 <= i < |chunks| ==> exists j :: 0 <= j < |sources| && TypeTag(sources[j]) == chunks[i].docType
  {
    var sources := CreateDocumentSources(chunks);
    var keys := GroupKeys(chunks);
    SourceTags(chunks);
    GroupKeysCover(chunks);
    forall i | 0 <= i < |chunks|
      ensures exists j :: 0 <= j < |sources| && TypeTag(sources[j]) == chunks[i].docType
    {
      var j :| 0 <= j < |keys| && keys[j] == chunks[i].docType;
      assert TypeTag(sources[j]) == chunks[i].docType;
    }
  }

  /** One source per distinct document type, in order of each type's first
      chunk (`idx` lists those chunks), tagged with its type and titled by
      the type's metadata; each holds exactly the chunks of its type. */
  lemma SourcesByType(chunks: seq<ChunkData>) returns (idx: seq<nat>)
    ensures var sources := CreateDocumentSources(chunks);
      && |idx| == |sources|
      && (forall j :: 0 <= j < |sources| ==>
            idx[j] < |chunks|
            && sources[j].metadata == map["doc_type" := chunks[idx[j]].docType]
            && sources[j].title == MetaFor(chunks[idx[j]].docType).title
            && sources[j].chunks == ChunksOfType(chunks, chunks[idx[j]].docType)
            && forall i :: 0 <= i < idx[j] ==> chunks[i].docType != chunks[idx[j]].docType)
      && (forall a, b :: 0 <= a < b < |idx| ==> idx[a] < idx[b])
  {
    var sources := CreateDocumentSources(chunks);
    var keys := GroupKeys(chunks);
    idx := FirstSeenIndices(chunks, DocType);
    SourceTags(chunks);
    forall j | 0 <= j < |sources|
      ensures keys[j] == chunks[idx[j]].docType
      ensures forall i :: 0 <= i < idx[j] ==> chunks[i].docType != chunks[idx[j]].docType
    {
      assert IsFirst(chunks, DocType, idx[j]);
    }
  }

  /** All chunks of the groups, one group after another. */
  function GroupedChunks(sources: seq<DocumentSource>): seq<ChunkData>
    decreases |sources|
  {
    if |sources| == 0 then [] else sources[0].chunks + GroupedChunks(sources[1..])
  }

  /** The chunks whose type is in `types`, in order. */
  function ChunksOfTypes(chunks: seq<ChunkData>, types: set<string>): seq<ChunkData>
    decreases |chunks|
  {
    if |chunks| == 0 then []
    else (if chunks[0].docType in types then [chunks[0]] else []) + ChunksOfTypes(chunks[1..], types)
  }

  lemma {:induction false} ChunksOfTypesAdd(chunks: seq<ChunkData>, docType: string, types: set<string>)
    requires docType !in types
    ensures multiset(ChunksOfTypes(chunks, types + {docType}))
      == multiset(ChunksOfType(chunks, docType)) + multiset(ChunksOfTypes(chunks, types))
    decreases |chunks|
  {
    if |chunks| > 0 {
      ChunksOfTypesAdd(chunks[1..], docType, types);
    }
  }

  lemma {:induction false} ChunksOfAllTypes(chunks: seq<ChunkData>, types: set<string>)
    requires forall i :: 0 <= i < |chunks| ==> chunks[i].docType in types
    ensures ChunksOfTypes(chunks, types) == chunks
    decreases |chunks|
  {
    if |chunks| > 0 {
      ChunksOfAllTypes(chunks[1..], types);
      assert [chunks[0]] + chunks[1..] == chunks;
    }
  }

  /** The keys of a key sequence, as a set. */
  function KeySet(keys: seq<string>): (r: set<string>)
    ensures forall k :: k in r <==> k in keys
    decreases |keys|
  {
    if |keys| == 0 then {} else {keys[0]} + KeySet(keys[1..])
  }

  /** The first group's chunks come first, then the other groups'. */
  lemma GroupedChunksStep(chunks: seq<ChunkData>, keys: seq<string>)
    requires |keys| > 0
    ensures GroupedChunks(SourcesFor(chunks, keys))
      == ChunksOfType(chunks, keys[0]) + GroupedChunks(SourcesFor(chunks, keys[1..]))
  {
    assert SourcesFor(chunks, keys)[1..] == SourcesFor(chunks, keys[1..]);
  }

  /** Grouping by distinct keys keeps exactly the chunks of those types. */
  lemma {:induction false} GroupedByDistinctKeys(chunks: seq<ChunkData>, keys: seq<string>)
    requires forall a, b :: 0 <= a < b < |keys| ==> keys[a] != keys[b]
    ensures multiset(GroupedChunks(SourcesFor(chunks, keys))) == multiset(ChunksOfTypes(chunks, KeySet(keys)))
    decreases |keys|
  {
    if |keys| == 0 {
      ChunksOfNoType(chunks);
    } else {
      var rest := keys[1..];
      GroupedByDistinctKeys(chunks, rest);
      GroupedChunksStep(chunks, keys);
      assert keys[0] !in rest by {
        forall b | 0 <= b < |rest| ensures rest[b] != keys[0] {
          assert rest[b] == keys[b + 1];
        }
      }
      ChunksOfTypesAdd(chunks, keys[0], KeySet(rest));
      assert KeySet(rest) + {keys[0]} == KeySet(keys);
    }
  }

  lemma {:induction false} ChunksOfNoType(chunks: seq<ChunkData>)
    ensures ChunksOfTypes(chunks, {}) == []
    decreases |chunks|
  {
    if |chunks| > 0 {
      ChunksOfNoType(chunks[1..]);
    }
  }

  /** No document type is a group key twice. */
  lemma GroupKeysDistinct(chunks: seq<ChunkData>)
    ensures var keys := GroupKeys(chunks);
      forall a, b :: 0 <= a < b < |keys| ==> keys[a] != keys[b]
  {
    var keys := GroupKeys(chunks);
    var firsts := FirstSeen(chunks, DocType);
    FirstSeenDistinct(chunks, DocType);
    forall a, b | 0 <= a < b < |keys| ensures keys[a] != keys[b] {
      assert keys[a] == DocType(firsts[a]) && keys[b] == DocType(firsts[b]);
    }
  }

  /** Every chunk's document type is a group key. */
  lemma GroupKeysCover(chunks: seq<ChunkData>)
    ensures forall i :: 0 <= i < |chunks| ==> chunks[i].docType in GroupKeys(chunks)
  {
    var keys := GroupKeys(chunks);
    var firsts := FirstSeen(chunks, DocType);
    FirstSeenKeys(chunks, DocType);
    forall i | 0 <= i < |chunks| ensures chunks[i].docType in keys {
      assert DocType(chunks[i]) in KeysBefore(chunks, DocType, |chunks|);
      var j :| 0 <= j < |firsts| && DocType(firsts[j]) == chunks[i].docType;
      assert keys[j] == chunks[i].docType;
    }
  }

  /** The groups together hold every input chunk exactly as often as the
      input does: grouping is a permutation, so no chunk is lost or repeated. */
  lemma GroupingIsPermutation(chunks: seq<ChunkData>)
    ensures multiset(GroupedChunks(CreateDocumentSources(chunks))) == multiset(chunks)
    ensures |GroupedChunks(CreateDocumentSources(chunks))| == |chunks|
  {
    var keys := GroupKeys(chunks);
    GroupKeysDistinct(chunks);
    GroupedByDistinctKeys(chunks, keys);
    GroupKeysCover(chunks);
    ChunksOfAllTypes(chunks, KeySet(keys));
    assert |multiset(GroupedChunks(CreateDocumentSources(chunks)))| == |multiset(chunks)|;
  }

  // ---------------------------------------------------------------------------
  // Query
  // ---------------------------------------------------------------------------

  /** The in-order headers that are non-empty: the plain source list. */
  function SourceHeaders(chunks: seq<ChunkData>): (r: seq<string>)
    ensures |r| <= |chunks|
    ensures forall i :: 0 <= i < |r| ==> r[i] != ""
    decreases |chunks|
  {
    if |chunks| == 0 then []
    else (if chunks[0].header != "" then [chunks[0].header] else []) + SourceHeaders(chunks[1..])
  }

  /** A header is listed exactly when some chunk has it and it is not empty;
      the list of a concatenation is the concatenation of the lists. */
  lemma {:induction false} SourceHeadersContents(chunks: seq<ChunkData>, more: seq<ChunkData>)
    ensures forall h :: h in SourceHeaders(chunks) <==> h != "" && exists i :: 0 <= i < |chunks| && chunks[i].header == h
    ensures SourceHeaders(chunks + more) == SourceHeaders(chunks) + SourceHeaders(more)
    decreases |chunks|
  {
    if |chunks| > 0 {
      SourceHeadersContents(chunks[1..], more);
      assert (chunks + more)[1..] == chunks[1..] + more;
      forall h | h != "" && (exists i :: 0 <= i < |chunks| && chunks[i].header == h)
        ensures h in SourceHeaders(chunks)
      {
        var i :| 0 <= i < |chunks| && chunks[i].header == h;
        if i > 0 {
          assert chunks[1..][i - 1].header == h;
        }
      }
    } else {
      assert chunks + more == more;
    }
  }

  const Apology: string := "Lo siento, hubo un error al procesar tu consulta. Por favor, inténtalo de nuevo más tarde."

  /** What `query` sees from the outside: the database during initialisation,
      the clock for the query id, the component renderer (`None` when
      `.render()` raises) and whether any step of the pipeline raises. */
  datatype QueryEnv = QueryEnv(db: Database.Env, clock: nat, render: ContextRenderer.Node -> Option<string>, raises: bool)

  /** The context HTML: the rendered string, or empty when rendering raises. */
  function ContextHtml(render: ContextRenderer.Node -> Option<string>, node: ContextRenderer.Node): (html: string)
    ensures render(node).None? ==> html == ""
    ensures render(node).Some? ==> html == render(node).value
  {
    match render(node)
    case Some(s) => s
    case None => ""
  }

  /** The container a query renders: the sources of the default chunks under
      the query id `q<seconds>`. */
  function QueryContainer(clock: nat): ContextRenderer.Node {
    ContextRenderer.RenderEmbeddedSources(CreateDocumentSources(SearchChunks(None)), Some("q" + NatToString(clock)), clock)
  }

  /** `query(text)`: initialise, retrieve with the default limit, answer,
      group, render, list the headers; any error yields the apology. */
  function Query(st: Rag, text: string, env: QueryEnv): (r: (Rag, EnrichedChatResponse))
    ensures r.0 == Initialize(st, env.db)
    ensures env.raises ==> r.1 == EnrichedChatResponse(Apology, Some(""), [])
    ensures !env.raises ==>
      r.1.answer == GenerateAnswer(text, SearchChunks(None)) && r.1.sources == SourceHeaders(SearchChunks(None))
      && r.1.contextHtml == Some(ContextHtml(env.render, QueryContainer(env.clock)))
  {
    var st' := Initialize(st, env.db);
    if env.raises then (st', EnrichedChatResponse(Apology, Some(""), []))
    else (st', Respond(text, env.clock, env.render))
  }

  /** The response of a query that does not fail: the answer from the
      default chunks, the rendered container of their sources, their headers. */
  function Respond(text: string, clock: nat, render: ContextRenderer.Node -> Option<string>): (resp: EnrichedChatResponse)
    ensures resp.answer == GenerateAnswer(text, SearchChunks(None))
    ensures resp.sources == SourceHeaders(SearchChunks(None))
    ensures resp.contextHtml == Some(ContextHtml(render, QueryContainer(clock)))
  {
    var chunks := SearchChunks(None);
    EnrichedChatResponse(GenerateAnswer(text, chunks), Some(ContextHtml(render, QueryContainer(clock))), SourceHeaders(chunks))
  }

  /** The predefined chunks fall into three groups, LEY, REGLAMENTO and NORMA, in that order. */
  lemma MockGroups()
    ensures GroupKeys(MockChunks) == ["LEY", "REGLAMENTO", "NORMA"]
    ensures |CreateDocumentSources(MockChunks)| == 3
  {
    var xs := MockChunks;
    assert DocType(xs[0]) == "LEY" && DocType(xs[1]) == "REGLAMENTO" && DocType(xs[2]) == "NORMA";
    var s1: set<string> := {} + {"LEY"};
    var s2 := s1 + {"REGLAMENTO"};
    var s3 := s2 + {"NORMA"};
    assert "REGLAMENTO" !in s1 && "NORMA" !in s2;
    assert FirstSeenFrom(xs, DocType, 3, s3) == [];
    assert FirstSeenFrom(xs, DocType, 2, s2) == [xs[2]];
    assert FirstSeenFrom(xs, DocType, 1, s1) == [xs[1]] + [xs[2]];
    assert FirstSeen(xs, DocType) == [xs[0]] + [xs[1], xs[2]];
  }

  /** The headers of the predefined chunks, in order. */
  lemma MockHeaders()
    ensures SourceHeaders(SearchChunks(None)) == [LeyHeader, ReglamentoHeader, NormaHeader]
  {
    SearchChunksZeroAndDefault();
    var xs := MockChunks;
    assert SourceHeaders(xs[2..]) == [xs[2].header] by {
      assert xs[2..][1..] == [];
    }
    assert xs[1..][1..] == xs[2..];
    assert SourceHeaders(xs[1..]) == [xs[1].header, xs[2].header];
  }

  lemma LeyHeaderHasNoBreak()
    ensures '\n' !in LeyHeader
  {
  }

  lemma ReglamentoHeaderHasNoBreak()
    ensures '\n' !in ReglamentoHeader
  {
  }

  lemma NormaHeaderHasNoBreak()
    ensures '\n' !in NormaHeader
  {
  }

  /** No header or type of a predefined chunk holds a line break. */
  lemma MockChunksHaveNoBreak()
    ensures forall i :: 0 <= i < |MockChunks| ==> '\n' !in MockChunks[i].docType && '\n' !in MockChunks[i].header
  {
    LeyHeaderHasNoBreak();
    ReglamentoHeaderHasNoBreak();
    NormaHeaderHasNoBreak();
  }

  /** The answer about the predefined chunks counts three documents on its third line. */
  lemma MockAnswerCount(text: string)
    requires '\n' !in text
    ensures var lines := Split(GenerateAnswer(text, SearchChunks(None)), '\n');
      |lines| > 2 && lines[2] == CountLine(3)
  {
    SearchChunksZeroAndDefault();
    MockChunksHaveNoBreak();
    AnswerLines(text, MockChunks);
  }

  /** A successful query answers from all three predefined chunks: the
      answer counts three, the sources are their three headers in order, and
      the context HTML is the rendering of a container tagged with the query
      id whose summary announces three documents and which holds the LEY,
      REGLAMENTO and NORMA sections in that order. */
  lemma QueryOfMockChunks(st: Rag, text: string, env: QueryEnv)
    requires !env.raises && '\n' !in text
    ensures var r := Query(st, text, env).1;
      var lines := Split(r.answer, '\n');
      var c := QueryContainer(env.clock);
      var sections := ContextRenderer.RenderedSections(c);
      && |lines| > 2 && lines[2] == CountLine(3)
      && r.sources == [LeyHeader, ReglamentoHeader, NormaHeader]
      && |CreateDocumentSources(SearchChunks(None))| == 3
      && r.contextHtml == Some(ContextHtml(env.render, c))
      && c.Elem? && c.attrs == [("data-query-id", "q" + NatToString(env.clock))]
      && ContextRenderer.SummaryCount(c) == Some(3)
      && |sections| == 3
      && sections[0].children[0].children[0] == ContextRenderer.Text("📄 " + MetaFor("LEY").title)
      && sections[1].children[0].children[0] == ContextRenderer.Text("📄 " + MetaFor("REGLAMENTO").title)
      && sections[2].children[0].children[0] == ContextRenderer.Text("📄 " + MetaFor("NORMA").title)
  {
    MockAnswerCount(text);
    MockHeaders();
    MockContainer(env.clock);
  }

  /** The container rendered for the predefined chunks: tagged with the
      query id, announcing three documents, holding the three sections. */
  lemma MockContainer(clock: nat)
    ensures var c := QueryContainer(clock);
      var sections := ContextRenderer.RenderedSections(c);
      && |CreateDocumentSources(SearchChunks(None))| == 3
      && c.Elem? && c.attrs == [("data-query-id", "q" + NatToString(clock))]
      && ContextRenderer.SummaryCount(c) == Some(3)
      && |sections| == 3
      && sections[0].children[0].children[0] == ContextRenderer.Text("📄 " + MetaFor("LEY").title)
      && sections[1].children[0].children[0] == ContextRenderer.Text("📄 " + MetaFor("REGLAMENTO").title)
      && sections[2].children[0].children[0] == ContextRenderer.Text("📄 " + MetaFor("NORMA").title)
  {
    SearchChunksZeroAndDefault();
    MockGroups();
    var sources := CreateDocumentSources(MockChunks);
    SourceTags(MockChunks);
    assert sources[0] == SourceFor(MockChunks, "LEY");
    assert sources[1] == SourceFor(MockChunks, "REGLAMENTO");
    assert sources[2] == SourceFor(MockChunks, "NORMA");
    ContextRenderer.RenderedStructure(sources, Some("q" + NatToString(clock)), clock);
  }
}
