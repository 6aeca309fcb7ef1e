/**
  The `todo-comments` search index as the mutations use it: a table from
  document id (the todo id) to search document, written by whole-document
  `index` calls and by `update` calls that run the `addAll` script.
  Unavailability of the index server is a parameter.
*/
module SearchIndex {
  import opened Documents

  /** Why an index write failed. */
  datatype IndexFault = Unavailable | DocumentMissing

  datatype WriteStatus = Written | Rejected(fault: IndexFault)

  class TodoCommentsIndex {
    var docs: map<int, SearchDoc>

    constructor ()
      ensures docs == map[]
    {
      docs := map[];
    }

    /** `client.index`: creates or wholly replaces the document at `id`. */
    method Index(id: int, document: SearchDoc, down: bool) returns (s: WriteStatus)
      modifies this
      ensures s == if down then Rejected(Unavailable) else Written
      ensures docs == if down then old(docs) else old(docs)[id := document]
    {
      if down {
        return Rejected(Unavailable);
      }
      docs := docs[id := document];
      s := Written;
    }

    /** `client.update` with the script `ctx._source.comments.addAll(params.comments)`:
        appends in place to the comments of the existing document at `id`;
        a missing document is an error, never created on the fly. */
    method UpdateAddAll(id: int, added: seq<CommentRow>, down: bool) returns (s: WriteStatus)
      modifies this
      ensures s == (if down then Rejected(Unavailable)
                    else if id !in old(docs) then Rejected(DocumentMissing)
                    else Written)
      ensures docs == if s.Written? then old(docs)[id := AddAll(old(docs)[id], added)] else old(docs)
    {
      if down {
        return Rejected(Unavailable);
      }
      if id !in docs {
        return Rejected(DocumentMissing);
      }
      docs := docs[id := AddAll(docs[id], added)];
      s := Written;
    }
  }
}
