/**
 * The query handler (`query_document`): look the document up, load its
 * vector index, retrieve the three best chunks, generate an answer, and echo
 * the request.  The ranking of the index and the generated answer come from
 * collaborators that cannot be seen here and are described by a `QueryEnv`.
 */
module Query {
  import opened Wrappers
  import opened Storage
  import opened Ingest

  /** The `QueryRequest` body. */
  datatype QueryRequest = QueryRequest(documentId: string, query: string)

  /** The behaviour of the collaborators during one query. */
  datatype QueryEnv = QueryEnv(
    dbOk: bool,            // MongoDB is reachable for find_one
    loadOk: bool,          // FAISS.load_local returns for a saved index
    ranked: seq<string>,   // the index's chunks for the query, best first
    answer: Option<string>) // the answer of `rag_chain.ainvoke`, or None when it raises

  datatype QueryResponse =
    | Answered(documentId: string, query: string, answer: string, context: seq<string>)
    | QueryError(status: int)

  /** Retrieval width: `search_kwargs={"k": 3}`. */
  const RetrievalWidth: nat := 3

  /** The retriever keeps at most `k` chunks of the ranking, best first. */
  function Retrieve(ranked: seq<string>, k: nat): (r: seq<string>)
    ensures |r| <= k && |r| <= |ranked|
    ensures |r| == k || r == ranked
    ensures r == ranked[..|r|]
  {
    if |ranked| <= k then ranked else ranked[..k]
  }

  /**
   * What the handler raises, if anything, before it can answer: the 404 is
   * raised exactly when the database answers and `find_one` finds nothing.
   */
  function QueryFailure(st: Store, req: QueryRequest, env: QueryEnv): (r: Option<Raised>)
    ensures r == Some(HttpException(404)) <==> env.dbOk && Lookup(st, req.documentId).None?
    ensures r.None? ==> Lookup(st, req.documentId).Some?
  {
    if !env.dbOk then Some(OtherException)
    else match Lookup(st, req.documentId)
      case None => Some(HttpException(404))
      case Some(document) =>
        if document.vectorStorePath !in st.indexes || !env.loadOk then Some(OtherException)
        else if env.answer.None? then Some(OtherException)
        else None
  }

  /** `except Exception: raise HTTPException(500)`: the catch-all also catches the 404. */
  function QueryHandlerStatus(e: Raised): (status: int)
    ensures status == 500
  {
    match e
    case HttpException(_) => 500
    case OtherException => 500
  }

  /**
   * The response of the handler.  Every failure surfaces as 500; an answer
   * echoes the request, is given only for a registered document whose index
   * loads, and carries at most three chunks, a prefix of the ranking.
   */
  function QueryOutcome(st: Store, req: QueryRequest, env: QueryEnv): (r: QueryResponse)
    ensures r.QueryError? ==> r.status == 500
    ensures r.Answered? <==>
      && env.dbOk && req.documentId in st.registry
      && st.registry[req.documentId].vectorStorePath in st.indexes
      && env.loadOk && env.answer.Some?
    ensures r.Answered? ==>
      && r.documentId == req.documentId && r.query == req.query
      && r.answer == env.answer.value
      && |r.context| <= RetrievalWidth && |r.context| <= |env.ranked|
      && r.context == env.ranked[..|r.context|]
      && (|r.context| == RetrievalWidth || r.context == env.ranked)
  {
    match QueryFailure(st, req, env)
    case Some(e) => QueryError(QueryHandlerStatus(e))
    case None => Answered(req.documentId, req.query, env.answer.value, Retrieve(env.ranked, RetrievalWidth))
  }

  /** A `document_id` that is not registered raises 404 inside the handler and is reported as 500. */
  lemma UnknownDocumentIs500(st: Store, req: QueryRequest, env: QueryEnv)
    requires req.documentId !in st.registry
    ensures env.dbOk ==> QueryFailure(st, req, env) == Some(HttpException(404))
    ensures QueryOutcome(st, req, env) == QueryError(500)
  {
  }

  /**
   * A document uploaded successfully can be queried: with the database up,
   * its index loading and generation answering, the query is answered.
   */
  lemma UploadedDocumentIsAnswered(
    st: Store, filename: string, content: seq<byte>, env: IngestEnv, query: string, qenv: QueryEnv)
    requires IngestResponse(st, filename, content, env).Created?
    requires qenv.dbOk && qenv.loadOk && qenv.answer.Some?
    ensures var st' := IngestEffect(st, filename, content, env);
      var doc := IngestResponse(st, filename, content, env).doc;
      QueryOutcome(st', QueryRequest(doc.documentId, query), qenv).Answered?
  {
    SuccessfulUpload(st, filename, content, env);
  }

  /** In a valid store every registered document's index is saved, so only the collaborators can fail a lookup that succeeds. */
  lemma RegisteredDocumentIsAnswered(st: Store, req: QueryRequest, env: QueryEnv)
    requires Valid(st)
    requires req.documentId in st.registry
    requires env.dbOk && env.loadOk && env.answer.Some?
    ensures QueryOutcome(st, req, env).Answered?
  {
  }
}
