/**
  The records that travel between the relational store and the search index
  of the todo backend, and the one in-place edit the index applies to a
  stored document: the `addAll` update script.
*/
module Documents {

  /** Store-managed instants (createdAt, updatedAt, dueDate), kept opaque. */
  type Instant = int

  /** A Todo row as the store returns it from `todo.create`. */
  datatype TodoRow = TodoRow(
    id: int,
    content: string,
    completed: bool,
    dueDate: Instant,
    userId: int,
    createdAt: Instant,
    updatedAt: Instant)

  /** A Comment row as the store returns it from `comment.create`; the same
      record is what gets embedded in the search document. */
  datatype CommentRow = CommentRow(
    id: int,
    content: string,
    todoId: int,
    createdAt: Instant,
    updatedAt: Instant)

  /** The denormalised document kept in the `todo-comments` index, one per todo. */
  datatype SearchDoc = SearchDoc(todo: string, todoId: int, comments: seq<CommentRow>)

  /** The document `createTodo` writes for a freshly created todo row. */
  function NewTodoDocument(row: TodoRow): SearchDoc
  {
    SearchDoc(row.content, row.id, [])
  }

  /** The update script `ctx._source.comments.addAll(params.comments)`:
      appends `added` to the stored comments and leaves the other fields alone. */
  function AddAll(doc: SearchDoc, added: seq<CommentRow>): (d: SearchDoc)
    ensures d.todo == doc.todo && d.todoId == doc.todoId
    ensures |d.comments| == |doc.comments| + |added|
    ensures d.comments[..|doc.comments|] == doc.comments
    ensures d.comments[|doc.comments|..] == added
  {
    doc.(comments := doc.comments + added)
  }

  /** One `createComment` append per row, applied one after the other, as the
      index serialises concurrent script updates of one document. */
  function AppendEach(doc: SearchDoc, rows: seq<CommentRow>): SearchDoc
    decreases |rows|
  {
    if rows == [] then doc else AppendEach(AddAll(doc, [rows[0]]), rows[1..])
  }

  /** Serialised one-comment appends lose nothing and reorder nothing: they
      give the same document as one append of all the rows, so N appends add
      exactly N entries after the earlier ones. */
  lemma {:induction false} AppendEachIsAddAll(doc: SearchDoc, rows: seq<CommentRow>)
    ensures AppendEach(doc, rows) == AddAll(doc, rows)
    ensures |AppendEach(doc, rows).comments| == |doc.comments| + |rows|
    decreases |rows|
  {
    if rows != [] {
      AppendEachIsAddAll(AddAll(doc, [rows[0]]), rows[1..]);
      assert doc.comments + [rows[0]] + rows[1..] == doc.comments + rows;
    }
  }

  /** The index invariant the two mutations maintain: the document stored at
      key `k` carries `todoId == k`. */
  ghost predicate WellKeyed(docs: map<int, SearchDoc>)
  {
    forall k :: k in docs ==> docs[k].todoId == k
  }
}
