# Todo backend: search-index synchronisation and search-result assembly

This project models the part of the todo backend (`src/schema.ts`) that keeps the
Elasticsearch index `todo-comments` in step with the relational store, and the part
that turns the index's multi-search answer into the `todoSearch` result list.

- **Index projection.** The index holds one search document per todo id:
  `{todo, todoId, comments}`. `createTodo` first creates the todo row in the store.
  Then it writes a whole new document `{todo: content, todoId: id, comments: []}` at
  the todo's id (`client.index`). `createComment` first creates the comment row. Then
  it runs the update script `ctx._source.comments.addAll(params.comments)` with the
  one-element list `[created row]` on the document at `args.todoId` (`client.update`).
  The index is the class `SearchIndex.TodoCommentsIndex`, with its `docs` map. The store
  is the class `RelationalStore.Store`, with users, todo rows, comment rows and the
  auto-increment counters. Neither index call is guarded in the source. So an index
  failure becomes the mutation's error after the store row already exists
  (`Mutations.MutationError.IndexFailed`). A store failure means the index is never
  called (`StoreFailed`).
- **Query shape.** `Query.TodoSearchQuery` is the `bool`/`should` of a `match` on
  `todo` and a `nested` query on `comments` matching `comments.content`. The evaluator
  scopes the nested clause to one comment at a time. Text matching is the parameter
  `matches(key, text)` and stays uninterpreted.
- **Result assembly.** `Search.TodoSearch` walks the responses in order. It skips
  an errored response and treats a missing hit list as empty. It pushes
  `{id: todoId, todoId, content: todo, comments}` for every hit. A response with no
  error and no `hits` object makes the source's read of `search.hits.hits` throw a
  TypeError, so the whole query fails (`HitsUndefined`). Hit order is whatever the
  index answered. The query names no `size`, so the index answers at most one page of
  10 hits (`Search.DefaultPageSize`). The end-to-end lemma is therefore complete only
  when the page is not full.

Failure of the store or of the index server is an input (`storeDown`, `indexDown`,
`down`). The clock is an input (`now`). The store's connect failures are modelled
as they happen: an unknown user for a todo, an unknown todo for a comment.

The model follows what the code does in three places where a reader might expect otherwise:

- An index write failure is not swallowed. `client.index` and `client.update` are
  awaited with no handler around them, so the mutation fails with the index error.
  The store row is already created by then (`Mutations.CreateTodo`,
  `Mutations.CreateComment`).
- An append to a todo id that has no document throws as well
  (`IndexFailed(DocumentMissing)`). That can happen only when the store knows the todo:
  for a todo id the store does not know, the store's `connect` refuses the comment first,
  and the index is never reached (`StoreFailed`).
- The search returns one page of at most 10 hits, not every matching todo.

## Model

| member | source | states |
|---|---|---|
| `Documents.AddAll` | src/schema.ts:362-371 | the `addAll` script keeps `todo` and `todoId`, keeps every earlier comment in place and order, and appends exactly the given records after them |
| `Documents.AppendEachIsAddAll` | src/schema.ts:362-371 | one-comment appends applied one after another equal a single append of all of them, so N serialised appends add exactly N entries, in order, and drop none |
| `Query.QualifiesIff` | src/schema.ts:123-148 | a document is selected by the search query iff the key matches its `todo` text or the `content` of at least one single comment (the two clauses are OR-ed) |
| `RelationalStore.Store.CreateTodo` | src/schema.ts:288-299 | the store create fails iff the store is down or the user does not exist, and then changes nothing; otherwise it inserts one row with a fresh id and the given fields and leaves the rest alone |
| `RelationalStore.Store.CreateComment` | src/schema.ts:341-350 | the store create fails iff the store is down or the todo does not exist, and then changes nothing; otherwise it inserts one comment row with a fresh id and leaves the rest alone |
| `SearchIndex.TodoCommentsIndex.Index` | src/schema.ts:315-324 | a whole-document write: replaces whatever was at the id and leaves every other key unchanged; changes nothing when the index is down |
| `SearchIndex.TodoCommentsIndex.UpdateAddAll` | src/schema.ts:362-371 | the scripted update fails when the index is down or no document exists at the id, and then changes nothing; otherwise only that document changes, by the `addAll` append |
| `Mutations.CreateTodo` | src/schema.ts:287-327 | if the store create fails, the index is untouched; otherwise the row exists (users, comments and the comment counter unchanged, the todo counter advanced), and the index holds `{todo: content, todoId: id, comments: []}` at the new id with every other key unchanged, or, when the index write fails, is unchanged while the mutation reports the index error; the index never gets ahead of the store |
| `Mutations.CreateComment` | src/schema.ts:340-385 | if the store create fails, the index is untouched; otherwise the comment row exists (users, todos and the todo counter unchanged, the comment counter advanced), and either the todo's document gains exactly that record at the end (with nothing else changed) or the mutation reports the index error (server down, or no document for the todo) with the index unchanged; the index never gets ahead of the store |
| `Search.TodoSearch` | src/schema.ts:180-210 | the query fails iff some response has neither an error nor a `hits` object; otherwise the output is one record per hit of every non-error response, in response order and hit order (its length is the total hit count by `Search.AcceptedHitsCount`) |
| `Search.RecordsLength` | src/schema.ts:194-207 | the reshaping gives exactly one record per hit, for every hit list including the empty one |
| `Search.PushRecords` | src/schema.ts:194-207 | the inner walk appends one record per hit, in hit order, after the values already collected |
| `Search.RecordsConcat` | src/schema.ts:194-207 | reshaping hits commutes with concatenation: the records of two hit lists in a row are the records of the first followed by those of the second |
| `Search.RecordsAt` | src/schema.ts:195-202 | there is one record per hit, and the k-th record has `id == todoId ==` the source's `todoId`, `content ==` the source's `todo`, and the source's full `comments` list, not just the comment that matched |
| `Search.AcceptedHitsConcat` | src/schema.ts:182-208 | the hits taken from two runs of responses are those of the first run followed by those of the second, so the output is the concatenation of per-response contributions in response order |
| `Search.AcceptedHitsStep` | src/schema.ts:182-208 | taking one more response adds exactly that response's hits after the earlier ones |
| `Search.AcceptedHitsCount` | src/schema.ts:180-210 | both the accepted hit list and the output records built from it are as long as the total hit count of the non-error responses |
| `Search.SkippedResponse` | src/schema.ts:183-190 | an errored response, or one without a hit list, contributes nothing wherever it stands, and the responses after it are still taken |
| `Search.SearchFindsQualifyingTodos` | src/schema.ts:119-210 | for the one response the multi-search returns: every record names a distinct stored todo whose text or one of whose comments matches the key, with `id == todoId`, its `todo` text and its whole comment list; when the page is not full, every such todo is named |

## Left out

- The Elasticsearch client itself: its construction, the mapping setup `setMap`
  (never invoked), analyzers, relevance scoring and ranking. `matches(key, text)` is a
  parameter and hit order is taken as given.
- `Query.SelectsDoc` assumes that `comments` is already mapped as a `nested` field. The
  code never installs that mapping, because the `setMap` call is commented out. With only
  dynamic mapping the field would be a plain object, and the index would refuse the
  `nested` clause. It would answer with an error response, which the assembly skips.
  The model does not represent the index's mapping.
- Network, I/O and timing behaviour of both clients. A failed write is modelled as not
  applied. A write that is applied but then reported as failed, e.g. after a timeout,
  is not modelled.
- The `refresh: true` visibility of `client.index` and the near-real-time lag of
  `client.update`: the model has no separate "visible" state.
- Concurrent appends to one document: atomicity comes from the index server, and the
  model applies appends one after another (`Documents.AppendEachIsAddAll`).
- The pass-through resolvers (`allUsers`, `allTodos`, `todo`, `todoComments`,
  `allTodosCount`, `allTodosCountByDueDate`, `todosByDueDate`, `toggleTodoCompleted`,
  `deleteTodo`, `deleteAllTodos`) and the field resolvers on User, Todo and Comment.
  They only call the store and never touch the index. A delete would leave a stale
  document behind, which `Mutations.IndexBacked` does not allow for.
- The dayjs start/end-of-day computation, the Nexus type and input declarations, the
  DateTime scalar and the `makeSchema` wiring.
- The commented-out flattened and separate-index variants: they are dead code.
- `console.log` / `console.dir` calls: logging only.
- GraphQL serialisation: `Search.id` is declared as a String and receives the integer
  `todoId`. The model keeps it as that integer. The always-absent `type` field of
  `Search` is not modelled.
- The msearch call itself: `Search.TodoSearch` starts from its responses. A failure of
  the call throws before assembly and is not modelled.
- `prisma/seed.ts` (random seed data) and `src/context.ts` (client construction).
- Timestamps and ids: `createdAt`/`updatedAt` are the `now` input. Ids come from a
  counter standing in for the store's auto-increment.
