/**
 * The service itself: one object holding the state the three endpoints
 * change or read (the `documents` collection, the saved vector indexes, the
 * uploaded blobs, the temporary files), with the handlers as methods that run
 * their steps one after another and stop at the first failure.  Each handler
 * is proved against the specification functions of `Ingest` and `Query`, and
 * keeps the store's invariant.
 */
module Service {
  import opened Wrappers
  import opened Filenames
  import opened Storage
  import opened Ingest
  import opened Query

  /** `to_list(length=100)`: at most this many records are listed. */
  const ListLimit: nat := 100

  datatype ListResponse = Listed(docs: seq<DocumentResponse>) | ListError(status: int)

  class DocDb {
    var registry: map<string, Record>
    var order: seq<string>
    var indexes: set<string>
    var blobs: set<string>
    var temps: set<string>

    function State(): Store
      reads this
    {
      Store(registry, order, indexes, blobs, temps)
    }

    ghost predicate Valid()
      reads this
    {
      Storage.Valid(State())
    }

    constructor ()
      ensures Valid() && State() == Empty
    {
      registry, order := map[], [];
      indexes, blobs, temps := {}, {}, {};
      EmptyValid();
    }

    /** `insert_one` under the unique index on `document_id`: a duplicate key is refused. */
    method InsertDocument(rec: Record) returns (ok: bool)
      requires Valid()
      requires rec.vectorStorePath in indexes
      modifies this
      ensures Valid()
      ensures ok <==> rec.documentId !in old(registry)
      ensures State() == if ok then InsertOne(old(State()), rec).value else old(State())
    {
      if rec.documentId in registry {
        return false;
      }
      InsertPreservesValid(State(), rec);
      registry := registry[rec.documentId := rec];
      order := order + [rec.documentId];
      return true;
    }

    /**
     * The body of the upload handler's `try`, first part: admission, the
     * temporary directory, the emptiness check and the temporary copy.
     */
    method RunUpload(filename: string, content: seq<byte>, env: IngestEnv) returns (outcome: Attempt)
      requires Valid()
      modifies this
      ensures Valid()
      ensures State() == IngestEffect(old(State()), filename, content, env)
      ensures outcome == TryOutcome(old(State()), filename, content, env)
    {
      IngestPreservesValid(State(), filename, content, env);
      if !HasPdfSuffix(filename) {
        StopBeforeWrite(State(), filename, content, env);
        return Raise(HttpException(400));
      }
      var tempDir := TempDir(env.cwd);
      if !env.tempDirOk {
        StopBeforeWrite(State(), filename, content, env);
        return Raise(OtherException);
      }
      var safeFilename := Sanitize(filename);
      var tempFilePath := JoinPath(tempDir, TempFileName(env.tempHex, safeFilename));
      if |content| == 0 {
        StopBeforeWrite(State(), filename, content, env);
        return Raise(HttpException(400));
      }
      match env.write {
        case WriteRaises =>
          StopBeforeWrite(State(), filename, content, env);
          return Raise(OtherException);
        case WriteUnverified =>
          StopBeforeWrite(State(), filename, content, env);
          return Raise(HttpException(500));
        case WriteOk =>
      }
      ghost var before := State();
      temps := temps + {tempFilePath};
      outcome := ProcessUpload(filename, content, env, before);
    }

    /** Second part: the blob upload, loading, splitting, and building and saving the index. */
    method ProcessUpload(filename: string, content: seq<byte>, env: IngestEnv, ghost before: Store)
      returns (outcome: Attempt)
      requires Storage.Valid(before)
      requires HasPdfSuffix(filename) && env.tempDirOk && |content| > 0 && env.write.WriteOk?
      requires State() == before.(temps := before.temps + {TempPath(env.cwd, env.tempHex, filename)})
      modifies this
      ensures Valid()
      ensures State() == IngestEffect(before, filename, content, env)
      ensures outcome == TryOutcome(before, filename, content, env)
    {
      IngestPreservesValid(before, filename, content, env);
      if env.upload.UploadRaises? {
        StopAtUpload(before, filename, content, env);
        return Raise(OtherException);
      }
      var uploadResult := env.upload;
      blobs := blobs + {uploadResult.publicId};
      if !env.loadOk {
        StopWhileIndexing(before, filename, content, env);
        return Raise(HttpException(400));
      }
      if !env.splitOk {
        StopWhileIndexing(before, filename, content, env);
        return Raise(OtherException);
      }
      var persistentPath := IndexPath(uploadResult.publicId);
      if !env.storeOk {
        StopWhileIndexing(before, filename, content, env);
        return Raise(OtherException);
      }
      indexes := indexes + {persistentPath};
      outcome := RegisterUpload(filename, content, env, before);
    }

    /** Last part: the record is inserted, then the temporary copy is removed. */
    method RegisterUpload(filename: string, content: seq<byte>, env: IngestEnv, ghost before: Store)
      returns (outcome: Attempt)
      requires Storage.Valid(before)
      requires HasPdfSuffix(filename) && env.tempDirOk && |content| > 0 && env.write.WriteOk?
      requires env.upload.Uploaded? && env.loadOk && env.splitOk && env.storeOk
      requires State() == before.(
        temps := before.temps + {TempPath(env.cwd, env.tempHex, filename)},
        blobs := before.blobs + {env.upload.publicId},
        indexes := before.indexes + {IndexPath(env.upload.publicId)})
      modifies this
      ensures Valid()
      ensures State() == IngestEffect(before, filename, content, env)
      ensures outcome == TryOutcome(before, filename, content, env)
    {
      IngestPreservesValid(before, filename, content, env);
      var documentData := NewRecord(filename, env);
      if !env.dbOk {
        StopAtInsert(before, filename, content, env);
        return Raise(OtherException);
      }
      var inserted := InsertDocument(documentData);
      if !inserted {
        StopAtInsert(before, filename, content, env);
        return Raise(OtherException);
      }
      if !env.removeOk {
        StopAtRemove(before, filename, content, env);
        return Raise(OtherException);
      }
      RunToEnd(before, filename, content, env);
      temps := temps - {TempPath(env.cwd, env.tempHex, filename)};
      return Returned(ToResponse(documentData));
    }

    /** `POST /upload-document/`: the `try` body and its two `except` clauses. */
    method UploadDocument(filename: string, content: seq<byte>, env: IngestEnv) returns (res: UploadResponse)
      requires Valid()
      modifies this
      ensures Valid()
      ensures State() == IngestEffect(old(State()), filename, content, env)
      ensures res == IngestResponse(old(State()), filename, content, env)
    {
      var outcome := RunUpload(filename, content, env);
      match outcome {
        case Returned(doc) => res := Created(doc);
        case Raise(HttpException(status)) => res := UploadError(status);
        case Raise(OtherException) => res := UploadError(500);
      }
    }

    /** `POST /query-document/`: reads the state and changes nothing. */
    method QueryDocument(req: QueryRequest, env: QueryEnv) returns (res: QueryResponse)
      requires Valid()
      ensures res == QueryOutcome(State(), req, env)
    {
      var failure: Raised;
      if !env.dbOk {
        failure := OtherException;
      } else {
        var document := Lookup(State(), req.documentId);
        if document.None? {
          failure := HttpException(404);
        } else if document.value.vectorStorePath !in indexes || !env.loadOk {
          failure := OtherException;
        } else if env.answer.None? {
          failure := OtherException;
        } else {
          var context := Retrieve(env.ranked, RetrievalWidth);
          return Answered(req.documentId, req.query, env.answer.value, context);
        }
      }
      res := QueryError(QueryHandlerStatus(failure));
    }

    /**
     * `GET /documents/`: the first 100 records in insertion order, each as a
     * `DocumentResponse`; 500 when the database cannot be read.
     */
    method ListDocuments(dbOk: bool) returns (res: ListResponse)
      requires Valid()
      ensures res.ListError? <==> !dbOk
      ensures res.ListError? ==> res.status == 500
      ensures res.Listed? ==>
        && |res.docs| <= ListLimit
        && |res.docs| == (if |order| < ListLimit then |order| else ListLimit)
        && forall i :: 0 <= i < |res.docs| ==>
             order[i] in registry && res.docs[i] == ToResponse(registry[order[i]])
    {
      if !dbOk {
        return ListError(500);
      }
      var n := if |order| < ListLimit then |order| else ListLimit;
      var docs: seq<DocumentResponse> := [];
      var i := 0;
      while i < n
        invariant 0 <= i <= n
        invariant |docs| == i
        invariant forall j :: 0 <= j < i ==> order[j] in registry && docs[j] == ToResponse(registry[order[j]])
      {
        docs := docs + [ToResponse(registry[order[i]])];
        i := i + 1;
      }
      return Listed(docs);
    }
  }
}
