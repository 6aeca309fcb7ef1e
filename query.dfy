/**
  The shape of the `todoSearch` query: a boolean `should` of a match on the
  top-level `todo` field and a `nested` match on `comments.content`.
  Text matching (analysis, tokenisation) belongs to the index and is kept
  uninterpreted: every evaluator takes it as a parameter `matches(key, text)`.
*/
module Query {
  import opened Documents

  /** The fragment of the index's query language the search uses. */
  datatype Query =
    | Match(field: string, key: string)
    | Nested(path: string, query: Query)
    | Bool(should: seq<Query>)

  /** The query `todoSearch` sends for the search key `key`. */
  function TodoSearchQuery(key: string): Query
  {
    Bool([
      Match("todo", key),
      Nested("comments", Bool([Match("comments.content", key)]))
    ])
  }

  /** Whether `q` selects `doc`, evaluated at document level. Nested
      comments are separate sub-documents, so a document-level match sees
      only `todo`, and only a `nested` clause on `comments` reaches them.
      A `bool` with `should` clauses alone needs one of them to hold; with
      no clause at all it selects everything. */
  function SelectsDoc(q: Query, doc: SearchDoc, matches: (string, string) -> bool): bool
    decreases q
  {
    match q
    case Match(field, key) => field == "todo" && matches(key, doc.todo)
    case Nested(path, inner) =>
      path == "comments" && exists c :: c in doc.comments && SelectsComment(inner, c, matches)
    case Bool(should) =>
      should == [] || exists i :: 0 <= i < |should| && SelectsDoc(should[i], doc, matches)
  }

  /** Whether `q` selects one comment inside the `comments` nested scope:
      there the only text field is `comments.content`, of that comment alone. */
  function SelectsComment(q: Query, c: CommentRow, matches: (string, string) -> bool): bool
    decreases q
  {
    match q
    case Match(field, key) => field == "comments.content" && matches(key, c.content)
    case Nested(_, _) => false
    case Bool(should) =>
      should == [] || exists i :: 0 <= i < |should| && SelectsComment(should[i], c, matches)
  }

  /** A document is a hit candidate for `key`. */
  predicate Qualifies(key: string, doc: SearchDoc, matches: (string, string) -> bool)
  {
    SelectsDoc(TodoSearchQuery(key), doc, matches)
  }

  /** The two clauses are OR-ed: a document qualifies exactly when the key
      matches its todo text or the content of at least one single comment. */
  lemma QualifiesIff(key: string, doc: SearchDoc, matches: (string, string) -> bool)
    ensures Qualifies(key, doc, matches) <==>
      (matches(key, doc.todo) || exists c :: c in doc.comments && matches(key, c.content))
  {
    var q := TodoSearchQuery(key);
    var todoClause := Match("todo", key);
    var commentClause := Bool([Match("comments.content", key)]);
    var nested := Nested("comments", commentClause);
    assert q.should == [todoClause, nested];
    assert SelectsDoc(todoClause, doc, matches) == matches(key, doc.todo);
    forall c | c in doc.comments
      ensures SelectsComment(commentClause, c, matches) == matches(key, c.content)
    {
      assert commentClause.should[0] == Match("comments.content", key);
    }
    assert SelectsDoc(nested, doc, matches) ==
      exists c :: c in doc.comments && matches(key, c.content);
    if SelectsDoc(q, doc, matches) {
      var i :| 0 <= i < |q.should| && SelectsDoc(q.should[i], doc, matches);
      assert i == 0 || i == 1;
    }
    if SelectsDoc(todoClause, doc, matches) {
      assert SelectsDoc(q.should[0], doc, matches);
    }
    if SelectsDoc(nested, doc, matches) {
      assert SelectsDoc(q.should[1], doc, matches);
    }
  }
}
