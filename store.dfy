/**
 * The client-side to-do store of `js/store.js`: the collection kept under the store's
 * name and the counter that issues ids to new records. Each operation returns the
 * value that `js/store.js` passes to its callback.
 */
module TodoStore {
  import opened Records
  import opened Collection

  class Store {
    /** The collection persisted under the store's name. */
    var todos: seq<Todo>
    /** The id the next created record receives. */
    var index: int

    /** Ids strictly ascend and have all been issued before `index`, so the next id is new. */
    ghost predicate IdsOrdered()
      reads this
      ensures IdsOrdered() ==> UniqueIds(todos)
    {
      && Ascending(todos)
      && (AscendingUnique(todos); Below(todos, index))
    }

    /**
     * Opens the store over what is persisted under its name (`None` when nothing is).
     * An absent collection is created empty; a non-empty one resumes the counter
     * after its last record's id.
     */
    constructor (stored: Option<seq<Todo>>)
      ensures todos == (if stored.Some? then stored.value else [])
      ensures index == ResumedIndex(stored)
      ensures stored.None? || stored.value == [] ==> index == 0
      ensures stored.None? || Ascending(stored.value) ==> IdsOrdered()
    {
      var existing: seq<Todo> := [];
      var start := 0;
      if stored.Some? {
        existing := stored.value;
        if |existing| > 0 {
          var lastIndex := |existing| - 1;
          start := existing[lastIndex].id + 1;
        }
      }
      todos, index := existing, start;
      if stored.Some? && Ascending(stored.value) {
        ResumedIndexAboveAll(stored.value);
      }
    }

    /**
     * The records that agree with every field of `query`, in collection order, or
     * nothing at all when no callback is given.
     */
    method Find(query: Query, hasCallback: bool) returns (r: Option<seq<Todo>>)
      ensures !hasCallback ==> r == None
      ensures hasCallback ==> r == Some(Filter(todos, query))
      ensures hasCallback ==> forall t :: t in r.value <==> t in todos && Matches(t, query)
    {
      if !hasCallback {
        return None;
      }
      var found := [];
      var i := 0;
      while i < |todos|
        invariant 0 <= i <= |todos|
        invariant found == Filter(todos[..i], query)
      {
        assert todos[..i + 1] == todos[..i] + [todos[i]];
        FilterAppend(todos[..i], [todos[i]], query);
        if Matches(todos[i], query) {
          found := found + [todos[i]];
        }
        i := i + 1;
      }
      assert todos[..i] == todos;
      FilterMembers(todos, query);
      r := Some(found);
    }

    /** The whole collection. */
    method FindAll() returns (r: seq<Todo>)
      ensures r == todos
    {
      r := todos;
    }

    /**
     * Saving without an id: appends a new record carrying the current counter as its
     * id, advances the counter by one, and returns just the new record.
     */
    method Create(title: string, completed: bool) returns (r: seq<Todo>)
      modifies this
      ensures r == [Todo(old(index), title, completed)]
      ensures index == old(index) + 1
      ensures todos == old(todos) + r
      ensures old(IdsOrdered()) ==> IdsOrdered() && Filter(todos, IdQuery(old(index))) == r
    {
      var record := Todo(index, title, completed);
      if IdsOrdered() {
        AppendKeepsOrder(todos, index, title, completed);
        CreatedRecordFound(todos, index, title, completed);
      }
      index := index + 1;
      todos := todos + [record];
      r := [record];
    }

    /**
     * Saving with an id: merges the supplied fields into the first record with that id
     * (if there is one) and returns the whole collection. The counter is untouched.
     */
    method Update(id: int, patch: Patch) returns (r: seq<Todo>)
      modifies this
      ensures todos == UpdateFirst(old(todos), id, patch)
      ensures !HasId(old(todos), id) ==> todos == old(todos)
      ensures index == old(index)
      ensures r == todos
      ensures old(IdsOrdered()) ==> IdsOrdered()
    {
      ghost var before := todos;
      var i := 0;
      while i < |todos|
        invariant 0 <= i <= |todos|
        invariant todos == before
        invariant forall j :: 0 <= j < i ==> todos[j].id != id
      {
        if todos[i].id == id {
          UpdateFirstAt(todos, id, patch, i);
          todos := todos[i := Apply(todos[i], patch)];
          break;
        }
        i := i + 1;
      }
      if i == |before| {
        UpdateFirstAbsent(before, id, patch);
      }
      if Ascending(before) && Below(before, index) {
        UpdateFirstKeepsOrder(before, id, patch, index);
      }
      r := todos;
    }

    /**
     * Removes the first record with the given id (if there is one) and returns the
     * resulting collection. The counter is untouched.
     */
    method Remove(id: int) returns (r: seq<Todo>)
      modifies this
      ensures todos == RemoveFirst(old(todos), id)
      ensures !HasId(old(todos), id) ==> todos == old(todos)
      ensures index == old(index)
      ensures r == todos
      ensures old(IdsOrdered()) ==> IdsOrdered()
    {
      ghost var before := todos;
      var i := 0;
      while i < |todos|
        invariant 0 <= i <= |todos|
        invariant todos == before
        invariant forall j :: 0 <= j < i ==> todos[j].id != id
      {
        if todos[i].id == id {
          RemoveFirstAt(todos, id, i);
          todos := todos[..i] + todos[i + 1..];
          break;
        }
        i := i + 1;
      }
      if i == |before| {
        RemoveFirstAbsent(before, id);
      }
      if Ascending(before) && Below(before, index) {
        RemoveFirstKeepsOrder(before, id, index);
      }
      r := todos;
    }

    /** Empties the collection and returns it; the counter is NOT reset. */
    method Drop() returns (r: seq<Todo>)
      modifies this
      ensures todos == [] && r == []
      ensures index == old(index)
      ensures IdsOrdered()
    {
      todos := [];
      r := todos;
    }
  }
}
