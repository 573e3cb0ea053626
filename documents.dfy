/** Value types shared by the search server: document status, the result
    record, the per-document metadata, and the typed errors that replace the
    C++ exceptions. */
module Documents {

  datatype DocumentStatus = Actual | Irrelevant | Banned | Removed

  /** A ranked search result. Relevance is an exact real (the C++ code uses double). */
  datatype Document = Document(id: int, relevance: real, rating: int)

  /** Metadata stored per document id. */
  datatype DocumentData = DocumentData(rating: int, status: DocumentStatus)

  /** One variant per `throw` of the engine, named after the condition it reports. */
  datatype SearchError =
    | InvalidStopWord          // a stop word holds a control character
    | NegativeDocumentId       // AddDocument: id < 0
    | DuplicateDocumentId      // AddDocument: id already present
    | InvalidDocumentWord      // AddDocument: the text holds a control character
    | EmptyQueryWord           // ParseQueryWord: empty token
    | EmptyMinusWord           // ParseQueryWord: token ends with '-'
    | InvalidQueryWord         // ParseQueryWord: control character in the word
    | DoubleMinusWord          // ParseQueryWord: two leading '-' signs
    | DocumentIndexOutOfRange  // GetDocumentId: vector::at out of range
    | UnknownDocumentId        // MatchDocument: map::at on a missing id

  datatype Result<+T> = Ok(value: T) | Err(error: SearchError)

  /** The caller-supplied filter of FindTopDocuments: (id, status, rating) -> keep? */
  type DocumentPredicate = (int, DocumentStatus, int) -> bool

  /** The predicate the status overloads of FindTopDocuments build. */
  function StatusIs(status: DocumentStatus): (p: DocumentPredicate)
    ensures forall id, s, rating :: p(id, s, rating) <==> s == status
  {
    (id: int, s: DocumentStatus, rating: int) => s == status
  }
}
