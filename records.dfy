/** The values the to-do store keeps and the query and update data its callers pass in. */
module Records {

  datatype Option<+T> = None | Some(value: T) {
    /** The wrapped value, or `default` when there is none. */
    function GetOr(default: T): T {
      match this
      case Some(v) => v
      case None => default
    }
  }

  /** A stored to-do record: its id is assigned by the store when the record is created. */
  datatype Todo = Todo(id: int, title: string, completed: bool)

  /**
   * The query object given to `find`: every present field must equal the record's
   * field; an absent field is not constrained.
   */
  datatype Query = Query(id: Option<int>, title: Option<string>, completed: Option<bool>)

  /** The query with no fields, which every record satisfies. */
  const EmptyQuery := Query(None, None, None)

  /**
   * The update data given to `save` together with an id: the fields to overwrite.
   * It has no id field, so an update never renumbers a record.
   */
  datatype Patch = Patch(title: Option<string>, completed: Option<bool>)

  /** Whether record `t` agrees with every field that query `q` supplies (strict equality). */
  predicate Matches(t: Todo, q: Query)
    ensures q == EmptyQuery ==> Matches(t, q)
    ensures q == Query(Some(t.id), Some(t.title), Some(t.completed)) ==> Matches(t, q)
    ensures q.id.Some? && q.id.value != t.id ==> !Matches(t, q)
    ensures q.title.Some? && q.title.value != t.title ==> !Matches(t, q)
    ensures q.completed.Some? && q.completed.value != t.completed ==> !Matches(t, q)
  {
    && (q.id.Some? ==> q.id.value == t.id)
    && (q.title.Some? ==> q.title.value == t.title)
    && (q.completed.Some? ==> q.completed.value == t.completed)
  }

  /** Record `t` with the fields that `p` supplies overwritten. */
  function Apply(t: Todo, p: Patch): (r: Todo)
    ensures r.id == t.id
    ensures p == Patch(None, None) ==> r == t
    ensures p.title.Some? ==> r.title == p.title.value
    ensures p.title.None? ==> r.title == t.title
    ensures p.completed.Some? ==> r.completed == p.completed.value
    ensures p.completed.None? ==> r.completed == t.completed
  {
    Todo(t.id, p.title.GetOr(t.title), p.completed.GetOr(t.completed))
  }
}
