/**
 * The durable state the handlers act on, as one value: the MongoDB
 * `documents` collection (a map keyed by `document_id`, with a unique index on
 * that key, plus the order in which records were inserted), the vector
 * indexes saved on disk, the blobs uploaded to Cloudinary and the temporary
 * files present under the temporary directory.
 */
module Storage {
  import opened Wrappers

  /** One document of the `documents` collection. */
  datatype Record = Record(
    documentId: string,
    filename: string,
    cloudinaryUrl: string,
    vectorStorePath: string,
    uploadDate: string)

  /** The `DocumentResponse` model: a record without its index path. */
  datatype DocumentResponse = DocumentResponse(
    documentId: string,
    filename: string,
    cloudinaryUrl: string,
    uploadDate: string)

  function ToResponse(r: Record): DocumentResponse {
    DocumentResponse(r.documentId, r.filename, r.cloudinaryUrl, r.uploadDate)
  }

  datatype Store = Store(
    registry: map<string, Record>,
    order: seq<string>,
    indexes: set<string>,
    blobs: set<string>,
    temps: set<string>)

  const Empty: Store := Store(map[], [], {}, {}, {})

  /**
   * The store's invariant: `order` lists every key of the registry exactly
   * once, each record sits under its own `document_id`, and every record
   * points at a vector index that has been saved.
   */
  ghost predicate Valid(st: Store) {
    && (forall i, j :: 0 <= i < j < |st.order| ==> st.order[i] != st.order[j])
    && (forall id :: id in st.registry <==> id in st.order)
    && (forall id :: id in st.registry ==> st.registry[id].documentId == id)
    && (forall id :: id in st.registry ==> st.registry[id].vectorStorePath in st.indexes)
  }

  lemma EmptyValid()
    ensures Valid(Empty)
  {
  }

  /** `find_one({"document_id": id})`. */
  function Lookup(st: Store, id: string): (r: Option<Record>)
    ensures r.Some? <==> id in st.registry
    ensures r.Some? ==> r.value == st.registry[id]
  {
    if id in st.registry then Some(st.registry[id]) else None
  }

  /**
   * `insert_one(record)` under the unique index on `document_id`: a record
   * whose key is already present is refused (the store is then unchanged).
   */
  function InsertOne(st: Store, rec: Record): (r: Option<Store>)
    ensures r.None? <==> rec.documentId in st.registry
    ensures r.Some? ==> r.value.registry == st.registry[rec.documentId := rec]
    ensures r.Some? ==> r.value.order == st.order + [rec.documentId]
    ensures r.Some? ==> r.value.indexes == st.indexes && r.value.blobs == st.blobs && r.value.temps == st.temps
  {
    if rec.documentId in st.registry then None
    else Some(st.(registry := st.registry[rec.documentId := rec], order := st.order + [rec.documentId]))
  }

  /** A successful insert keeps the invariant when the record's index has been saved. */
  lemma InsertPreservesValid(st: Store, rec: Record)
    requires Valid(st)
    requires rec.vectorStorePath in st.indexes
    requires InsertOne(st, rec).Some?
    ensures Valid(InsertOne(st, rec).value)
  {
    var st' := InsertOne(st, rec).value;
    assert rec.documentId !in st.order;
    forall i, j | 0 <= i < j < |st'.order| ensures st'.order[i] != st'.order[j] {
      if j == |st.order| {
        assert st'.order[i] == st.order[i];
      }
    }
    forall id ensures id in st'.registry <==> id in st'.order {
      assert id in st'.order <==> id in st.order || id == rec.documentId;
    }
  }

  /** After an insert the record can be looked up, unchanged. */
  lemma LookupAfterInsert(st: Store, rec: Record)
    requires InsertOne(st, rec).Some?
    ensures Lookup(InsertOne(st, rec).value, rec.documentId) == Some(rec)
  {
  }

  /** Inserting the same `document_id` twice fails the second time and changes nothing. */
  lemma SecondInsertRefused(st: Store, rec: Record, other: Record)
    requires InsertOne(st, rec).Some?
    requires other.documentId == rec.documentId
    ensures InsertOne(InsertOne(st, rec).value, other).None?
  {
  }
}
