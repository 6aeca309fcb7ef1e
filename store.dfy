/**
  The relational store as the two content-creating mutations see it: the
  users a todo can be connected to, the todo and comment rows, and the
  auto-increment counters from which the store assigns ids. A failure of the
  store itself (connection lost, constraint violation) is a parameter.
*/
module RelationalStore {
  import opened Wrappers
  import opened Documents

  class Store {
    var users: set<int>
    var todos: map<int, TodoRow>
    var comments: map<int, CommentRow>
    var nextTodoId: int
    var nextCommentId: int

    /** Every stored row is keyed by its own id, below the next id to assign,
        and every comment belongs to a stored todo. */
    ghost predicate Valid()
      reads this
    {
      && (forall id :: id in todos ==> todos[id].id == id && id < nextTodoId)
      && (forall id :: id in comments ==> comments[id].id == id && id < nextCommentId)
      && (forall id :: id in comments ==> comments[id].todoId in todos)
    }

    constructor (users: set<int>)
      ensures Valid()
      ensures this.users == users && todos == map[] && comments == map[]
    {
      this.users := users;
      todos, comments := map[], map[];
      nextTodoId, nextCommentId := 1, 1;
    }

    /** `todo.create` with `user: { connect: { id: userId } }`: fails when the
        store is down or no such user exists, and otherwise inserts a row
        with a fresh id and both timestamps set to `now`. */
    method CreateTodo(content: string, completed: bool, dueDate: Instant, userId: int,
                      now: Instant, down: bool) returns (r: Option<TodoRow>)
      requires Valid()
      modifies this
      ensures Valid()
      ensures r.Some? <==> !down && userId in old(users)
      ensures r.None? ==> unchanged(this)
      ensures r.Some? ==>
        && r.value == TodoRow(old(nextTodoId), content, completed, dueDate, userId, now, now)
        && r.value.id !in old(todos)
        && todos == old(todos)[r.value.id := r.value]
        && comments == old(comments) && users == old(users)
        && nextTodoId == old(nextTodoId) + 1
        && nextCommentId == old(nextCommentId)
    {
      if down || userId !in users {
        return None;
      }
      var row := TodoRow(nextTodoId, content, completed, dueDate, userId, now, now);
      todos := todos[row.id := row];
      nextTodoId := nextTodoId + 1;
      r := Some(row);
    }

    /** `comment.create` with `todo: { connect: { id: todoId } }`: fails when
        the store is down or no such todo exists, and otherwise inserts a row
        with a fresh id and both timestamps set to `now`. */
    method CreateComment(content: string, todoId: int, now: Instant, down: bool)
      returns (r: Option<CommentRow>)
      requires Valid()
      modifies this
      ensures Valid()
      ensures r.Some? <==> !down && todoId in old(todos)
      ensures r.None? ==> unchanged(this)
      ensures r.Some? ==>
        && r.value == CommentRow(old(nextCommentId), content, todoId, now, now)
        && r.value.id !in old(comments)
        && comments == old(comments)[r.value.id := r.value]
        && todos == old(todos) && users == old(users)
        && nextCommentId == old(nextCommentId) + 1
        && nextTodoId == old(nextTodoId)
    {
      if down || todoId !in todos {
        return None;
      }
      var row := CommentRow(nextCommentId, content, todoId, now, now);
      comments := comments[row.id := row];
      nextCommentId := nextCommentId + 1;
      r := Some(row);
    }
  }
}
