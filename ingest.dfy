/**
 * The upload handler (`upload_document`) as a sequence of steps that run in a
 * fixed order, each of which may fail.  Collaborators that cannot be seen here
 * (the filesystem, Cloudinary, the PDF loader, the text splitter, the
 * embedding service and FAISS, MongoDB, uuid generation) are described by an
 * `IngestEnv`: the outcome each of them will have, and the identifiers and
 * URLs they will hand out.
 *
 * `FirstFailure` says which step stops the handler (if any) and what it
 * raises; the effects on the store are then given declaratively by how far
 * the handler got (`Passed`), and the response by the handler's two
 * `except` clauses (`HandlerStatus`).
 */
module Ingest {
  import opened Wrappers
  import opened Filenames
  import opened Storage

  newtype byte = x: int | 0 <= x < 256

  /** The steps of the handler, in the order in which they run. */
  datatype Step =
    | CheckSuffix    // `.pdf` admission test
    | MakeTempDir    // os.makedirs(temp_dir)
    | CheckEmpty     // rejection of empty content
    | WriteTemp      // write the temporary copy and check it exists and is not empty
    | UploadBlob     // cloudinary.uploader.upload
    | LoadPdf        // PyPDFium2Loader(...).load()
    | SplitText      // CharacterTextSplitter(...).split_documents
    | SaveIndex      // FAISS.from_documents + save_local at vector_stores/<public_id>
    | InsertRecord   // insert_one into the collection with a unique document_id
    | RemoveTemp     // os.remove(temp_file_path)

  function Rank(s: Step): nat {
    match s
    case CheckSuffix => 0
    case MakeTempDir => 1
    case CheckEmpty => 2
    case WriteTemp => 3
    case UploadBlob => 4
    case LoadPdf => 5
    case SplitText => 6
    case SaveIndex => 7
    case InsertRecord => 8
    case RemoveTemp => 9
  }

  /** What a failing step raises: an `HTTPException` with its status, or any other exception. */
  datatype Raised = HttpException(status: int) | OtherException

  /** Outcome of writing the temporary copy: written, `open`/`write` raised, or the existence/size check failed. */
  datatype TempWrite = WriteOk | WriteRaises | WriteUnverified

  /** Outcome of the Cloudinary upload: the fields of `upload_result` the handler reads, or an exception. */
  datatype BlobUpload =
    | Uploaded(publicId: string, secureUrl: string, createdAt: string)
    | UploadRaises

  /** The behaviour of every collaborator during one call of the handler. */
  datatype IngestEnv = IngestEnv(
    cwd: string,           // os.getcwd()
    tempDirOk: bool,       // os.makedirs(temp_dir) returns
    tempHex: string,       // uuid.uuid4().hex for the temporary name
    write: TempWrite,
    upload: BlobUpload,
    loadOk: bool,          // the PDF loader returns
    splitOk: bool,         // the splitter returns
    storeOk: bool,         // embedding, building and saving the index return
    documentId: string,    // str(uuid.uuid4())
    dbOk: bool,            // MongoDB is reachable for insert_one
    removeOk: bool)        // os.remove returns

  datatype Failure = Failure(step: Step, raised: Raised)

  /** The HTTP outcome of the handler: the created document, or an error status. */
  datatype UploadResponse = Created(doc: DocumentResponse) | UploadError(status: int)

  /** The first step that fails, and what it raises; `None` when the handler runs to the end. */
  function FirstFailure(st: Store, filename: string, content: seq<byte>, env: IngestEnv): Option<Failure> {
    if !HasPdfSuffix(filename) then Some(Failure(CheckSuffix, HttpException(400)))
    else if !env.tempDirOk then Some(Failure(MakeTempDir, OtherException))
    else if |content| == 0 then Some(Failure(CheckEmpty, HttpException(400)))
    else if env.write.WriteRaises? then Some(Failure(WriteTemp, OtherException))
    else if env.write.WriteUnverified? then Some(Failure(WriteTemp, HttpException(500)))
    else if env.upload.UploadRaises? then Some(Failure(UploadBlob, OtherException))
    else if !env.loadOk then Some(Failure(LoadPdf, HttpException(400)))
    else if !env.splitOk then Some(Failure(SplitText, OtherException))
    else if !env.storeOk then Some(Failure(SaveIndex, OtherException))
    // a duplicate key under the unique index raises like a lost connection
    else if !env.dbOk || env.documentId in st.registry then Some(Failure(InsertRecord, OtherException))
    else if !env.removeOk then Some(Failure(RemoveTemp, OtherException))
    else None
  }

  /** The handler completed step `s`. */
  predicate Passed(f: Option<Failure>, s: Step) {
    f.None? || Rank(s) < Rank(f.value.step)
  }

  /** The record the handler builds from the upload result and the fresh id. */
  function NewRecord(filename: string, env: IngestEnv): Record
    requires env.upload.Uploaded?
  {
    Record(env.documentId, filename, env.upload.secureUrl, IndexPath(env.upload.publicId), env.upload.createdAt)
  }

  /** `except HTTPException: raise` and `except Exception: raise HTTPException(500)`. */
  function HandlerStatus(e: Raised): int {
    match e
    case HttpException(status) => status
    case OtherException => 500
  }

  /** The store after the handler: each effect is present exactly when its step was passed. */
  function IngestEffect(st: Store, filename: string, content: seq<byte>, env: IngestEnv): Store {
    var f := FirstFailure(st, filename, content, env);
    var tmp := TempPath(env.cwd, env.tempHex, filename);
    var written := if Passed(f, WriteTemp) then st.temps + {tmp} else st.temps;
    Store(
      if Passed(f, InsertRecord) then st.registry[env.documentId := NewRecord(filename, env)] else st.registry,
      if Passed(f, InsertRecord) then st.order + [env.documentId] else st.order,
      if Passed(f, SaveIndex) then st.indexes + {IndexPath(env.upload.publicId)} else st.indexes,
      if Passed(f, UploadBlob) then st.blobs + {env.upload.publicId} else st.blobs,
      if Passed(f, RemoveTemp) then written - {tmp} else written)
  }

  /** How the body of the handler's `try` ends: it returns a response or raises. */
  datatype Attempt = Returned(doc: DocumentResponse) | Raise(e: Raised)

  /** The end of the `try` body: what the first failing step raises, or the created document. */
  function TryOutcome(st: Store, filename: string, content: seq<byte>, env: IngestEnv): Attempt {
    match FirstFailure(st, filename, content, env)
    case None => Returned(ToResponse(NewRecord(filename, env)))
    case Some(f) => Raise(f.raised)
  }

  /**
   * The response of the handler, after its two `except` clauses: the created
   * document exactly when no step failed, and otherwise 400 or 500.
   */
  function IngestResponse(st: Store, filename: string, content: seq<byte>, env: IngestEnv): (r: UploadResponse)
    ensures r.Created? <==> FirstFailure(st, filename, content, env).None?
    ensures r.UploadError? ==> r.status == 400 || r.status == 500
  {
    match TryOutcome(st, filename, content, env)
    case Returned(doc) => Created(doc)
    case Raise(e) => UploadError(HandlerStatus(e))
  }

  // ---------------------------------------------------------------------------
  // Properties of the handler
  // ---------------------------------------------------------------------------

  // What has happened when the handler stops at a given step: nothing is
  // rolled back, so each effect of an earlier step is still there.

  /** A failure up to and including the temporary write changes nothing. */
  lemma StopBeforeWrite(st: Store, filename: string, content: seq<byte>, env: IngestEnv)
    requires var f := FirstFailure(st, filename, content, env);
      f.Some? && Rank(f.value.step) <= Rank(WriteTemp)
    ensures IngestEffect(st, filename, content, env) == st
  {
  }

  /** A failed blob upload leaves the temporary file behind and nothing else. */
  lemma StopAtUpload(st: Store, filename: string, content: seq<byte>, env: IngestEnv)
    requires var f := FirstFailure(st, filename, content, env);
      f.Some? && f.value.step == UploadBlob
    ensures IngestEffect(st, filename, content, env) ==
      st.(temps := st.temps + {TempPath(env.cwd, env.tempHex, filename)})
  {
  }

  /**
   * A failure while loading, splitting or indexing leaves the blob uploaded
   * and the temporary file in place, and no index or record.
   */
  lemma StopWhileIndexing(st: Store, filename: string, content: seq<byte>, env: IngestEnv)
    requires var f := FirstFailure(st, filename, content, env);
      f.Some? && f.value.step in {LoadPdf, SplitText, SaveIndex}
    ensures env.upload.Uploaded?
    ensures IngestEffect(st, filename, content, env) ==
      st.(temps := st.temps + {TempPath(env.cwd, env.tempHex, filename)},
          blobs := st.blobs + {env.upload.publicId})
  {
  }

  /** A failing insert leaves the blob, the temporary file and the saved index, and no record. */
  lemma StopAtInsert(st: Store, filename: string, content: seq<byte>, env: IngestEnv)
    requires var f := FirstFailure(st, filename, content, env);
      f.Some? && f.value.step == InsertRecord
    ensures env.upload.Uploaded?
    ensures IngestEffect(st, filename, content, env) ==
      st.(temps := st.temps + {TempPath(env.cwd, env.tempHex, filename)},
          blobs := st.blobs + {env.upload.publicId},
          indexes := st.indexes + {IndexPath(env.upload.publicId)})
  {
  }

  /** A failing removal leaves the record inserted and the temporary file in place. */
  lemma StopAtRemove(st: Store, filename: string, content: seq<byte>, env: IngestEnv)
    requires var f := FirstFailure(st, filename, content, env);
      f.Some? && f.value.step == RemoveTemp
    ensures env.upload.Uploaded?
    ensures var saved := st.(
        temps := st.temps + {TempPath(env.cwd, env.tempHex, filename)},
        blobs := st.blobs + {env.upload.publicId},
        indexes := st.indexes + {IndexPath(env.upload.publicId)});
      && InsertOne(saved, NewRecord(filename, env)).Some?
      && IngestEffect(st, filename, content, env) == InsertOne(saved, NewRecord(filename, env)).value
  {
  }

  /** A run to the end inserts the record and removes the temporary file again. */
  lemma RunToEnd(st: Store, filename: string, content: seq<byte>, env: IngestEnv)
    requires FirstFailure(st, filename, content, env).None?
    ensures env.upload.Uploaded?
    ensures var tmp := TempPath(env.cwd, env.tempHex, filename);
      var saved := st.(
        temps := st.temps + {tmp},
        blobs := st.blobs + {env.upload.publicId},
        indexes := st.indexes + {IndexPath(env.upload.publicId)});
      && InsertOne(saved, NewRecord(filename, env)).Some?
      && IngestEffect(st, filename, content, env) ==
         InsertOne(saved, NewRecord(filename, env)).value.(temps := saved.temps - {tmp})
  {
  }

  /**
   * Nothing is rolled back: every record, index and blob present before the
   * handler is still there afterwards, the registry only grows by the new
   * record, and of the temporary files only the handler's own can differ.
   */
  lemma IngestOnlyAdds(st: Store, filename: string, content: seq<byte>, env: IngestEnv)
    ensures var st' := IngestEffect(st, filename, content, env);
      && (forall id :: id in st.registry ==> id in st'.registry && st'.registry[id] == st.registry[id])
      && st'.order[..|st.order|] == st.order
      && st.indexes <= st'.indexes
      && st.blobs <= st'.blobs
      && st'.temps - {TempPath(env.cwd, env.tempHex, filename)} == st.temps - {TempPath(env.cwd, env.tempHex, filename)}
  {
    var f := FirstFailure(st, filename, content, env);
    if Passed(f, InsertRecord) {
      assert env.documentId !in st.registry;
    } else {
      EarlyFailureKeepsRegistry(st, filename, content, env);
    }
  }

  /**
   * Two records never share an index when the blob's index path is new: a
   * record the upload leaves in the registry under another id points
   * elsewhere.  (A repeated `public_id` would overwrite the earlier index.)
   */
  lemma FreshIndexNotShared(st: Store, filename: string, content: seq<byte>, env: IngestEnv)
    requires Valid(st)
    requires env.upload.Uploaded? && IndexPath(env.upload.publicId) !in st.indexes
    ensures var st' := IngestEffect(st, filename, content, env);
      forall id :: id in st'.registry && id != env.documentId ==>
        st'.registry[id].vectorStorePath != IndexPath(env.upload.publicId)
  {
    RecordOnlyAfterIndexSaved(st, filename, content, env);
  }

  /** A name without the `.pdf` suffix is refused with 400 before anything is created. */
  lemma NonPdfRejected(st: Store, filename: string, content: seq<byte>, env: IngestEnv)
    requires !HasPdfSuffix(filename)
    ensures IngestResponse(st, filename, content, env) == UploadError(400)
    ensures IngestEffect(st, filename, content, env) == st
  {
    StopBeforeWrite(st, filename, content, env);
  }

  /**
   * Empty content is refused before the temporary file is written or the
   * blob uploaded; with 400 once the name is admitted and the directory made.
   */
  lemma EmptyContentRejected(st: Store, filename: string, env: IngestEnv)
    ensures IngestEffect(st, filename, [], env) == st
    ensures IngestResponse(st, filename, [], env).UploadError?
    ensures HasPdfSuffix(filename) && env.tempDirOk ==> IngestResponse(st, filename, [], env) == UploadError(400)
  {
    StopBeforeWrite(st, filename, [], env);
  }

  /**
   * A record is added only after the vector index has been saved at
   * `vector_stores/<public_id>`, and it points at that path.
   */
  lemma RecordOnlyAfterIndexSaved(st: Store, filename: string, content: seq<byte>, env: IngestEnv)
    ensures var st' := IngestEffect(st, filename, content, env);
      st'.registry != st.registry ==>
        && env.upload.Uploaded?
        && env.documentId !in st.registry
        && st'.registry == st.registry[env.documentId := NewRecord(filename, env)]
        && st'.registry[env.documentId].vectorStorePath == IndexPath(env.upload.publicId)
        && IndexPath(env.upload.publicId) in st'.indexes
  {
  }

  /** A failure at any step up to and including the insert leaves the registry unchanged. */
  lemma EarlyFailureKeepsRegistry(st: Store, filename: string, content: seq<byte>, env: IngestEnv)
    requires var f := FirstFailure(st, filename, content, env);
      f.Some? && Rank(f.value.step) <= Rank(InsertRecord)
    ensures IngestEffect(st, filename, content, env).registry == st.registry
    ensures IngestEffect(st, filename, content, env).order == st.order
  {
  }

  /**
   * A failing insert (duplicate key or database error) leaves a saved index
   * that no record refers to.
   */
  lemma OrphanIndexOnInsertFailure(st: Store, filename: string, content: seq<byte>, env: IngestEnv)
    requires Valid(st)
    requires var f := FirstFailure(st, filename, content, env);
      f.Some? && f.value.step == InsertRecord
    requires env.upload.Uploaded? && IndexPath(env.upload.publicId) !in st.indexes
    ensures var st' := IngestEffect(st, filename, content, env);
      && IndexPath(env.upload.publicId) in st'.indexes
      && forall id :: id in st'.registry ==> st'.registry[id].vectorStorePath != IndexPath(env.upload.publicId)
    ensures IngestResponse(st, filename, content, env) == UploadError(500)
  {
    StopAtInsert(st, filename, content, env);
  }

  /**
   * A failure removing the temporary file is reported as 500 although the
   * record has been inserted and the file is still there.
   */
  lemma RemoveFailureAfterInsert(st: Store, filename: string, content: seq<byte>, env: IngestEnv)
    requires var f := FirstFailure(st, filename, content, env);
      f.Some? && f.value.step == RemoveTemp
    ensures var st' := IngestEffect(st, filename, content, env);
      && env.documentId in st'.registry
      && TempPath(env.cwd, env.tempHex, filename) in st'.temps
    ensures IngestResponse(st, filename, content, env) == UploadError(500)
  {
  }

  /**
   * Error mapping: every error response is 400 or 500, and it is 400 exactly
   * when the name, the emptiness check or the PDF loader refused the upload.
   */
  lemma UploadErrorStatus(st: Store, filename: string, content: seq<byte>, env: IngestEnv)
    ensures var r := IngestResponse(st, filename, content, env);
      var f := FirstFailure(st, filename, content, env);
      && (r.UploadError? <==> f.Some?)
      && (r.UploadError? ==> r.status == 400 || r.status == 500)
      && (r.UploadError? ==> (r.status == 400 <==> f.value.step in {CheckSuffix, CheckEmpty, LoadPdf}))
  {
  }

  /** A `document_id` already present is never overwritten: the upload fails and the registry is kept. */
  lemma DuplicateIdRefused(st: Store, filename: string, content: seq<byte>, env: IngestEnv)
    requires env.documentId in st.registry
    ensures IngestResponse(st, filename, content, env).UploadError?
    ensures IngestEffect(st, filename, content, env).registry == st.registry
  {
  }

  /**
   * A successful upload returns the record it inserted under a fresh id; the
   * blob, the index and the record exist and the temporary file is gone.
   */
  lemma SuccessfulUpload(st: Store, filename: string, content: seq<byte>, env: IngestEnv)
    requires IngestResponse(st, filename, content, env).Created?
    ensures var st' := IngestEffect(st, filename, content, env);
      var doc := IngestResponse(st, filename, content, env).doc;
      && HasPdfSuffix(filename) && |content| > 0 && env.upload.Uploaded?
      && env.documentId !in st.registry
      && doc.documentId == env.documentId && doc.filename == filename
      && doc == ToResponse(st'.registry[env.documentId])
      && st'.order == st.order + [env.documentId]
      && env.upload.publicId in st'.blobs
      && st'.registry[env.documentId].vectorStorePath in st'.indexes
      && TempPath(env.cwd, env.tempHex, filename) !in st'.temps
  {
  }

  /** Saving more indexes, or touching blobs and temporary files, keeps the invariant. */
  lemma ValidWithMoreIndexes(st: Store, st': Store)
    requires Valid(st)
    requires st'.registry == st.registry && st'.order == st.order
    requires st.indexes <= st'.indexes
    ensures Valid(st')
  {
  }

  /** The handler keeps the store's invariant, whatever step fails. */
  lemma IngestPreservesValid(st: Store, filename: string, content: seq<byte>, env: IngestEnv)
    requires Valid(st)
    ensures Valid(IngestEffect(st, filename, content, env))
  {
    var f := FirstFailure(st, filename, content, env);
    var st' := IngestEffect(st, filename, content, env);
    if f.None? || f.value.step == RemoveTemp {
      if f.None? {
        RunToEnd(st, filename, content, env);
      } else {
        StopAtRemove(st, filename, content, env);
      }
      var rec := NewRecord(filename, env);
      var saved := st.(
        temps := st.temps + {TempPath(env.cwd, env.tempHex, filename)},
        blobs := st.blobs + {env.upload.publicId},
        indexes := st.indexes + {IndexPath(env.upload.publicId)});
      ValidWithMoreIndexes(st, saved);
      InsertPreservesValid(saved, rec);
      ValidWithMoreIndexes(InsertOne(saved, rec).value, st');
    } else {
      EarlyFailureKeepsRegistry(st, filename, content, env);
      ValidWithMoreIndexes(st, st');
    }
  }
}
