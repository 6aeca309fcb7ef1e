/**
  The `createTodo` and `createComment` resolvers: write the store first and,
  once that has returned, project the new row into the search index. Neither
  index call is guarded, so an index failure becomes the mutation's error
  while the store row stays created.
*/
module Mutations {
  import opened Wrappers
  import opened Documents
  import opened RelationalStore
  import opened SearchIndex

  /** Why a mutation failed, as its caller sees it. */
  datatype MutationError =
    | StoreFailed                  // the store create threw; nothing was written anywhere
    | IndexFailed(fault: IndexFault)  // the store row exists, the index write threw

  /** The index never runs ahead of the store: every document sits at the id
      of a stored todo and copies its content, and every embedded comment is a
      stored comment row of that todo. Both mutations keep this whatever
      fails, because the store is written first. */
  ghost predicate IndexBacked(store: Store, index: TodoCommentsIndex)
    reads store, index
  {
    forall id :: id in index.docs ==>
      && id in store.todos
      && index.docs[id].todoId == id
      && index.docs[id].todo == store.todos[id].content
      && (forall c :: c in index.docs[id].comments ==>
            c.todoId == id && c.id in store.comments && store.comments[c.id] == c)
  }

  /** `TodoCreateInput`. */
  datatype TodoCreateInput = TodoCreateInput(content: string, dueDate: Instant, completed: bool)

  /** `createTodo(data, userId)`. */
  method CreateTodo(store: Store, index: TodoCommentsIndex, data: TodoCreateInput, userId: int,
                    now: Instant, storeDown: bool, indexDown: bool)
    returns (r: Result<TodoRow, MutationError>)
    requires store.Valid()
    modifies store, index
    ensures store.Valid()
    // the store create failed: the index is never written
    ensures (storeDown || userId !in old(store.users)) ==>
      r == Failure(StoreFailed) && unchanged(store) && index.docs == old(index.docs)
    // the store create succeeded: the row exists whatever the index does
    ensures !(storeDown || userId !in old(store.users)) ==>
      var row := TodoRow(old(store.nextTodoId), data.content, data.completed, data.dueDate,
                         userId, now, now);
      && row.id !in old(store.todos)
      && store.todos == old(store.todos)[row.id := row]
      && store.comments == old(store.comments)
      && store.users == old(store.users)
      && store.nextTodoId == row.id + 1
      && store.nextCommentId == old(store.nextCommentId)
      && r == (if indexDown then Failure(IndexFailed(Unavailable)) else Success(row))
      && index.docs == (if indexDown then old(index.docs)
                        else old(index.docs)[row.id := SearchDoc(data.content, row.id, [])])
    ensures WellKeyed(old(index.docs)) ==> WellKeyed(index.docs)
    ensures old(IndexBacked(store, index)) ==> IndexBacked(store, index)
  {
    var created := store.CreateTodo(data.content, data.completed, data.dueDate, userId, now, storeDown);
    if created.None? {
      return Failure(StoreFailed);
    }
    var row := created.value;
    var s := index.Index(row.id, NewTodoDocument(row), indexDown);
    if s.Rejected? {
      return Failure(IndexFailed(s.fault));
    }
    r := Success(row);
  }

  /** `createComment(data, todoId)`. */
  method CreateComment(store: Store, index: TodoCommentsIndex, content: string, todoId: int,
                       now: Instant, storeDown: bool, indexDown: bool)
    returns (r: Result<CommentRow, MutationError>)
    requires store.Valid()
    modifies store, index
    ensures store.Valid()
    // the store create failed: the index is never written
    ensures (storeDown || todoId !in old(store.todos)) ==>
      r == Failure(StoreFailed) && unchanged(store) && index.docs == old(index.docs)
    // the store create succeeded: the comment row exists whatever the index does
    ensures !(storeDown || todoId !in old(store.todos)) ==>
      var row := CommentRow(old(store.nextCommentId), content, todoId, now, now);
      && row.id !in old(store.comments)
      && store.comments == old(store.comments)[row.id := row]
      && store.todos == old(store.todos)
      && store.users == old(store.users)
      && store.nextCommentId == row.id + 1
      && store.nextTodoId == old(store.nextTodoId)
      && r == (if indexDown then Failure(IndexFailed(Unavailable))
               else if todoId !in old(index.docs) then Failure(IndexFailed(DocumentMissing))
               else Success(row))
      && index.docs == (if r.Success? then old(index.docs)[todoId := AddAll(old(index.docs)[todoId], [row])]
                        else old(index.docs))
    ensures WellKeyed(old(index.docs)) ==> WellKeyed(index.docs)
    ensures old(IndexBacked(store, index)) ==> IndexBacked(store, index)
  {
    var created := store.CreateComment(content, todoId, now, storeDown);
    if created.None? {
      return Failure(StoreFailed);
    }
    var row := created.value;
    var s := index.UpdateAddAll(todoId, [row], indexDown);
    if s.Rejected? {
      return Failure(IndexFailed(s.fault));
    }
    r := Success(row);
  }
}
