/** The records exchanged between the RAG pipeline, the renderer and the API
    (schemas.py), with the same field defaults. */
module Schemas {
  import opened Optional

  /** A retrieved text fragment; only `text` is required. */
  datatype ChunkData = ChunkData(text: string, header: string := "", docType: string := "DOCUMENTO")

  /** A source document with its fragments and display metadata; only `title`
      is required. `metadata` is a `Dict[str, Any]` in the source; the only
      entries ever stored are strings. */
  datatype DocumentSource = DocumentSource(
    title: string,
    chunks: seq<ChunkData> := [],
    url: Option<string> := None,
    publicationDate: Option<string> := None,
    ageDescription: Option<string> := None,
    ageEmoji: Option<string> := None,
    metadata: map<string, string> := map[])

  /** The chat endpoint's answer; only `answer` is required. */
  datatype EnrichedChatResponse = EnrichedChatResponse(
    answer: string,
    contextHtml: Option<string> := None,
    sources: seq<string> := [])

  /** A validated chat request. */
  datatype ChatQuery = ChatQuery(text: string)

  /** The service status document of the health endpoint. */
  datatype HealthCheck = HealthCheck(
    status: string := "ok",
    service: string := "dof-chat",
    version: string := "0.1.0")

  /** Why a chat request body was refused by field validation. */
  datatype QueryError = TooShort | TooLong

  const MinQueryLength: nat := 1
  const MaxQueryLength: nat := 1000

  /** Field validation of `ChatQuery.text`: its length in characters must lie
      between 1 and 1000 inclusive. */
  function ValidateChatQuery(text: string): (r: Result<ChatQuery, QueryError>)
    ensures r.Success? <==> 1 <= |text| <= 1000
    ensures r.Success? ==> r.value.text == text
    ensures r == Failure(TooShort) <==> |text| == 0
    ensures r == Failure(TooLong) <==> |text| > 1000
  {
    if |text| < MinQueryLength then Failure(TooShort)
    else if |text| > MaxQueryLength then Failure(TooLong)
    else Success(ChatQuery(text))
  }

  /** A chunk built from its text alone has an empty header and the generic
      document type. */
  lemma ChunkDataDefaults(text: string)
    ensures ChunkData(text).header == "" && ChunkData(text).docType == "DOCUMENTO"
    ensures ChunkData(text).text == text
  {
  }

  /** A source built from its title alone has no fragments, no metadata and
      no url, date or age indicator. */
  lemma DocumentSourceDefaults(title: string)
    ensures DocumentSource(title).chunks == [] && DocumentSource(title).metadata == map[]
    ensures DocumentSource(title).url.None? && DocumentSource(title).publicationDate.None?
    ensures DocumentSource(title).ageDescription.None? && DocumentSource(title).ageEmoji.None?
  {
  }

  /** A response built from its answer alone has no context HTML and no sources. */
  lemma EnrichedChatResponseDefaults(answer: string)
    ensures EnrichedChatResponse(answer).contextHtml.None?
    ensures EnrichedChatResponse(answer).sources == []
  {
  }

  /** The default health document. */
  lemma HealthCheckDefaults()
    ensures HealthCheck() == HealthCheck("ok", "dof-chat", "0.1.0")
  {
  }
}
