# docdb — a Dafny model of the document upload and query service

docdb is a small FastAPI service. It accepts PDF uploads and stores each file as
a Cloudinary blob. It splits the text into chunks, embeds them into a FAISS
vector index saved under `vector_stores/<public_id>`, and records the document
in a MongoDB `documents` collection. Its startup hook asks for a unique index on
`document_id`, and the model assumes that index exists (see "## Left out"). It
answers questions about one document from the three best chunks of its index,
and it lists the registered documents.

This project models the three endpoints of `main.py` and the filename handling
of the upload endpoint.

- `filenames.dfy` (`Filenames`): the case-insensitive `.pdf` admission test.
  It also has the substitution that turns every character outside
  `[a-zA-Z0-9._-]` into `_`, and the POSIX `os.path.join` that builds the
  temporary path `<cwd>/temp/<uuid hex>_<safe name>` and the index path. These
  are pure functions. The lemmas cover length, alphabet, fixed points,
  idempotence, keeping the suffix, and the temporary file being one entry
  directly inside the temporary directory.
- `store.dfy` (`Storage`): the state the handlers act on, as one value. It holds
  the registry keyed by `document_id` with its insertion order, the saved
  indexes, the uploaded blobs and the live temporary files. It defines the
  store invariant `Valid`, and `InsertOne` under the unique key.
- `ingest.dfy` (`Ingest`): the upload handler as a chain of ten steps in the
  order the code runs them. `IngestEnv` gives the outcome of each collaborator.
  `FirstFailure` gives the step that stops the handler and what it raises.
  `IngestEffect` gives the store afterwards: each effect is present exactly
  when its step was passed, and nothing is rolled back. `IngestResponse` maps
  `HTTPException` through unchanged and any other exception to 500. The lemmas
  give the exact store after a stop at each step, and state that the
  invariant is preserved.
- `query.dfy` (`Query`): the query handler. It looks the document up, loads its
  index, keeps the first three chunks of the ranking, and echoes the request.
  The 404 raised for an unknown id is caught by the handler's own
  `except Exception` and reported as 500.
- `service.dfy` (`Service`): the class `DocDb`, whose fields are the store. The
  upload, query and list handlers are methods that run the steps one after
  another, and each keeps `Valid`. The upload and query methods are proved
  equal to the specification functions above. The listing states its result
  directly in its contract: the first 100 records in order.

The filesystem, Cloudinary, the PDF loader, the splitter, the embedding model,
FAISS, the language model, MongoDB's availability and `uuid` generation are not
modelled. Each one's outcome (success or failure, the identifiers and URLs it
hands out, the chunk ranking, the generated answer) is a parameter: an
`IngestEnv` for an upload, a `QueryEnv` for a query, and a flag for the
listing.

The code rolls nothing back. When the registry insert fails, the saved index
and the blob stay, and no record refers to them
(`Ingest.OrphanIndexOnInsertFailure`). The 404 for an unknown document is
reported as 500 (`Query.UnknownDocumentIs500`). The chunk size (1000), the
chunk overlap (0) and the retrieval width (3) are constants in the code.

## Model

| member | source | states |
|---|---|---|
| Filenames.Lower | main.py:94 | lower-casing keeps the length of the name |
| Filenames.LowerAt | main.py:94 | each character of the lower-cased name is the lower case of the character at the same position |
| Filenames.PdfSuffixCharacterised | main.py:94-95 | a name is admitted iff it has at least four characters and ends in `.` followed by `p`, `d`, `f`, each in either case |
| Filenames.HasPdfSuffix | main.py:94 | the admission test: the lower-cased name ends in `.pdf`; an admitted name has at least four characters |
| Filenames.PdfSuffixOfTail | main.py:94 | admission depends only on the last four characters of the name |
| Filenames.Sanitize | main.py:102 | sanitising keeps the length of the name |
| Filenames.SanitizeAt | main.py:102 | each allowed character stays at its position, and every other character becomes `_` |
| Filenames.SanitizeOnlyAllowed | main.py:102 | the sanitised name contains only `[a-zA-Z0-9._-]`, so no `/` |
| Filenames.SanitizeFixedPoints | main.py:102 | sanitising leaves a name unchanged iff every character of it is allowed |
| Filenames.SanitizeIdempotent | main.py:102 | sanitising twice gives the same name as sanitising once |
| Filenames.SanitizeKeepsPdfSuffix | main.py:94-102 | the sanitised form of an admitted name is itself admitted |
| Filenames.JoinPath | main.py:98-103 | `posixpath.join` of two components: an absolute second component replaces the first; otherwise one `/` is inserted unless the first is empty or already ends in `/` |
| Filenames.JoinPathShape | main.py:98-103 | the joined path always ends with the second component, starts with the first unless the second is absolute, and is at most one character longer than both together |
| Filenames.TempDir | main.py:98 | the temporary directory is `join(cwd, "temp")` |
| Filenames.TempFileName | main.py:103 | the temporary name is the uuid hex, `_`, then the sanitised name |
| Filenames.TempPath | main.py:98-103 | the temporary copy is `join(join(cwd, "temp"), "<hex>_<sanitised name>")`; its shape is stated by `TempPathIsDirectChild` |
| Filenames.IndexPath | main.py:150 | the index of a blob is saved at `join("vector_stores", public_id)` |
| Filenames.IndexPathInjective | main.py:150 | distinct `public_id`s give distinct index paths, so no two blobs share an index |
| Filenames.TempDirShape | main.py:98 | the temporary directory `join(cwd, "temp")` is non-empty and does not end in a separator |
| Filenames.JoinPlain | main.py:103 | joining a name without a leading `/` onto a directory without a trailing `/` inserts exactly one separator |
| Filenames.TempFileNameShape | main.py:103 | `<hex>_<safe name>` contains no separator, and it is 33 characters longer than the uploaded name |
| Filenames.TempPathIsDirectChild | main.py:98-103 | the temporary path is the temporary directory, `/`, then `<hex>_<safe name>`; it names one entry directly inside that directory, never `.` or `..`; its length is fixed by the name's length |
| Storage.ToResponse | main.py:171 | a `DocumentResponse` carries the id, filename, blob URL and upload date of a record, and drops its index path (also at main.py:219) |
| Storage.EmptyValid | main.py:78 | the empty store satisfies the invariant |
| Storage.Lookup | main.py:185 | `find_one` by `document_id` finds a record iff the id is registered, and then returns that record |
| Storage.InsertOne | main.py:78 | `insert_one` under the unique index fails iff the id is present; otherwise it adds the record and appends the id, and it leaves indexes, blobs and temporary files alone |
| Storage.InsertPreservesValid | main.py:78 | an insert whose index is saved keeps ids distinct, keeps registry and order in step, and keeps every record pointing at a saved index |
| Storage.LookupAfterInsert | main.py:165 | after an insert, the record is found under its id unchanged |
| Storage.SecondInsertRefused | main.py:78 | a second insert with the same `document_id` is refused |
| Ingest.FirstFailure | main.py:94-169 | the step that stops the handler, in the code's order, and what it raises: `HTTPException(400)` at the suffix and emptiness checks and the PDF loader, `HTTPException(500)` when the written file is missing or empty, any other exception elsewhere; a duplicate `document_id` fails the insert |
| Ingest.NewRecord | main.py:157-164 | the inserted record holds the fresh id, the uploaded (unsanitised) name, the blob's `secure_url`, the index path and the blob's `created_at` |
| Ingest.HandlerStatus | main.py:173-179 | an `HTTPException` keeps its status; any other exception becomes 500 |
| Ingest.IngestEffect | main.py:94-169 | the store after the handler: the temporary file, the blob, the index and the record are each present exactly when their step ran, and the temporary file is removed only when removal ran |
| Ingest.TryOutcome | main.py:92-171 | how the `try` body ends: the created document when no step fails, otherwise what the first failing step raises |
| Ingest.IngestResponse | main.py:171-179 | the handler answers with the created document exactly when no step failed, and otherwise with 400 or 500 |
| Ingest.IngestOnlyAdds | main.py:90-179 | no earlier record changes and no index or blob name disappears; the order only grows at its end, and only the handler's own temporary file can change |
| Ingest.FreshIndexNotShared | main.py:150-165 | when the blob's index path was not saved before, no other record in the registry afterwards points at it |
| Ingest.StopBeforeWrite | main.py:94-121 | a failure at admission, at directory creation, at the emptiness check or at the temporary write leaves the store unchanged |
| Ingest.StopAtUpload | main.py:116-136 | a failed Cloudinary upload leaves exactly the temporary file behind |
| Ingest.StopWhileIndexing | main.py:131-154 | a failure while loading, splitting or saving the index leaves exactly the temporary file and the blob |
| Ingest.StopAtInsert | main.py:150-165 | a failed registry insert leaves exactly the temporary file, the blob and the saved index |
| Ingest.StopAtRemove | main.py:165-169 | a failed removal of the temporary file leaves the record inserted and the temporary file present |
| Ingest.RunToEnd | main.py:131-171 | a complete run adds the blob, the index and the record, and removes the temporary file it wrote |
| Ingest.NonPdfRejected | main.py:94-95 | a name without the `.pdf` suffix gets 400 and changes nothing |
| Ingest.EmptyContentRejected | main.py:113-114 | empty content is refused before any write or upload; it gets 400 once the name is admitted and the directory is made |
| Ingest.RecordOnlyAfterIndexSaved | main.py:149-165 | the registry changes only by adding the new record under a fresh id, and that record points at `vector_stores/<public_id>`, which has been saved |
| Ingest.EarlyFailureKeepsRegistry | main.py:94-165 | a failure at any step up to and including the insert leaves the registry and its order unchanged |
| Ingest.OrphanIndexOnInsertFailure | main.py:150-179 | a failed insert leaves a saved index that no record refers to, and the handler answers 500 |
| Ingest.RemoveFailureAfterInsert | main.py:165-179 | a failing `os.remove` answers 500 although the record is registered and the temporary file remains |
| Ingest.UploadErrorStatus | main.py:173-179 | the handler errs iff a step fails; the status is 400 or 500, and it is 400 iff the name, the emptiness check or the PDF loader refused the upload |
| Ingest.DuplicateIdRefused | main.py:78 | an upload whose fresh id is already registered fails and does not overwrite the registry |
| Ingest.SuccessfulUpload | main.py:157-171 | a created response echoes the inserted record under a fresh id, appended to the order; the blob and the index exist and the temporary file is gone |
| Ingest.ValidWithMoreIndexes | main.py:150-154 | saving more indexes, or adding or removing blobs and temporary files, keeps the invariant |
| Ingest.IngestPreservesValid | main.py:90-179 | the upload handler keeps the store invariant, whichever step fails |
| Query.Retrieve | main.py:197 | the retriever returns a prefix of the ranking of length `min(k, length of the ranking)` |
| Query.QueryFailure | main.py:185-202 | what the query handler raises before it can answer; it raises the 404 exactly when the database answers and `find_one` finds no record |
| Query.QueryHandlerStatus | main.py:211-213 | every exception in the query handler, the 404 included, becomes 500 |
| Query.QueryOutcome | main.py:181-213 | the query is answered iff the database is up, the id is registered, its index loads and generation answers; the answer echoes id and query and carries at most three chunks, best first; every error is 500 |
| Query.UnknownDocumentIs500 | main.py:185-187 | an unregistered id raises 404 inside the handler, and the caller sees 500 |
| Query.UploadedDocumentIsAnswered | main.py:157-209 | a document created by an upload can be queried when its collaborators answer |
| Query.RegisteredDocumentIsAnswered | main.py:185-209 | in a valid store every registered document has a saved index, so its query is answered when the collaborators answer |
| Service.DocDb.constructor | main.py:78 | a new service starts with an empty store that satisfies the invariant |
| Service.DocDb.InsertDocument | main.py:165 | inserting succeeds iff the id is new; it changes the store exactly as `InsertOne` does, and keeps the invariant |
| Service.DocDb.RunUpload | main.py:92-121 | admission, temporary directory, emptiness check and temporary write, then the rest of the handler; the new state is `IngestEffect` and the outcome is the first failing step's exception or the created document |
| Service.DocDb.ProcessUpload | main.py:131-154 | after the temporary write: blob upload, loading, splitting and saving the index, with the same new state and outcome as the specification |
| Service.DocDb.RegisterUpload | main.py:156-171 | after the index is saved: record insert and temporary file removal, with the same new state and outcome as the specification |
| Service.DocDb.UploadDocument | main.py:90-179 | the endpoint keeps the invariant; its new state is `IngestEffect` and its response is `IngestResponse` |
| Service.DocDb.QueryDocument | main.py:181-213 | the endpoint changes nothing, and its response is `QueryOutcome` of the current store |
| Service.DocDb.ListDocuments | main.py:215-222 | 500 iff the database fails; otherwise the first `min(n, 100)` records in registry order, each as a `DocumentResponse` |

## Left out

- Storage.InsertOne: the unique index on `document_id` is assumed to exist, so a repeated id is refused. The code creates it only in the `lifespan` hook (main.py:75-83). That hook is assigned to `app.lifespan` (main.py:86) after the app is constructed (main.py:24). FastAPI runs a lifespan only when it is given to the constructor, so the index may never be created unless it already exists in the database. Without it, a repeated `document_id` would be stored twice. The same assumption underlies Storage.SecondInsertRefused, Ingest.DuplicateIdRefused and Service.DocDb.constructor.
- Ingest.IngestOnlyAdds: indexes and blobs are modelled by name only. A repeated `public_id` makes `save_local` (main.py:154) replace the earlier index files, and the upload replace the earlier blob, so an earlier record would then answer from the new PDF. The model cannot express that overwrite. Ingest.FreshIndexNotShared states what holds when the index path is new.
- PDF loading, text splitting (`chunk_size=1000`, no overlap), Cohere embeddings, FAISS building, saving and loading, and Gemini generation are library internals. Each appears only as the success flag, ranking or answer it delivers.
- The prompt template (main.py:63-72) and all logging are not modelled: they affect no state and no status.
- `os.getcwd()`, `uuid.uuid4()`, the uploaded bytes, and the `public_id`, `secure_url` and `created_at` Cloudinary returns are parameters. The model does not claim the two uuids are fresh. A collision of `document_id` is modelled as the insert failing (under the unique index; see the Storage.InsertOne line below).
- Filenames.Lower: only ASCII letters are lower-cased. No other character lower-cases to `.`, `p`, `d` or `f`, so the admission test is unaffected.
- A failed temporary write or a failed `save_local` is modelled as leaving no file or index behind. Partially written files are not modelled.
- The collection's natural order, which `to_list(length=100)` follows, is modelled as insertion order. MongoDB does not guarantee this.
- The handlers are `async`. Concurrent requests interleaving between steps are not modelled; each call runs to its end alone.
- FastAPI request parsing, the `response_model` validation, the lifespan hook's connection handling (its index creation is covered by the Storage.InsertOne line), and the `uvicorn` entry point are not modelled.
- A query loads whatever index is stored at the record's path; `QueryEnv.loadOk` stands for `FAISS.load_local` failing for any reason.
