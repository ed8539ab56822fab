/**
 * The stored collection as a value: an ordered sequence of to-do records. The
 * functions here are the specifications the store's methods are proved against,
 * and the lemmas say what those functions mean.
 */
module Collection {
  import opened Records

  // ---------------------------------------------------------------------------
  // Ids

  /** Some record of `s` has id `id`. */
  predicate HasId(s: seq<Todo>, id: int) {
    exists k :: 0 <= k < |s| && s[k].id == id
  }

  /** `i` is the position of the first record of `s` whose id is `id`. */
  predicate FirstWithId(s: seq<Todo>, id: int, i: int) {
    && 0 <= i < |s|
    && s[i].id == id
    && forall j :: 0 <= j < i ==> s[j].id != id
  }

  /** No two records of `s` share an id. */
  predicate UniqueIds(s: seq<Todo>) {
    forall i, j :: 0 <= i < |s| && 0 <= j < |s| && i != j ==> s[i].id != s[j].id
  }

  /** The ids of `s` strictly increase from first record to last. */
  predicate Ascending(s: seq<Todo>) {
    forall i, j :: 0 <= i < j < |s| ==> s[i].id < s[j].id
  }

  /** Every id in `s` is below `n`, so `n` has not been issued to any record of `s`. */
  predicate Below(s: seq<Todo>, n: int) {
    forall k :: 0 <= k < |s| ==> s[k].id < n
  }

  /** The position of the first record with id `id`. */
  function FirstIndex(s: seq<Todo>, id: int): (i: nat)
    requires HasId(s, id)
    ensures FirstWithId(s, id, i)
  {
    if s[0].id == id then 0
    else
      assert HasId(s[1..], id) by {
        var k :| 0 <= k < |s| && s[k].id == id;
        assert s[1..][k - 1].id == id;
      }
      1 + FirstIndex(s[1..], id)
  }

  /** Ids that ascend are pairwise distinct. */
  lemma AscendingUnique(s: seq<Todo>)
    requires Ascending(s)
    ensures UniqueIds(s)
  {
  }

  /** Appending a record whose id is the counter keeps the ids ascending and below the next counter. */
  lemma AppendKeepsOrder(s: seq<Todo>, n: int, title: string, completed: bool)
    requires Ascending(s) && Below(s, n)
    ensures Ascending(s + [Todo(n, title, completed)])
    ensures Below(s + [Todo(n, title, completed)], n + 1)
  {
  }

  // ---------------------------------------------------------------------------
  // Querying

  /** The records of `s` that agree with every field of `q`, in their original order. */
  function Filter(s: seq<Todo>, q: Query): (r: seq<Todo>)
    ensures |r| <= |s|
  {
    if s == [] then []
    else (if Matches(s[0], q) then [s[0]] else []) + Filter(s[1..], q)
  }

  /** Filtering works piece by piece, so the relative order of the matches is kept. */
  lemma {:induction false} FilterAppend(a: seq<Todo>, b: seq<Todo>, q: Query)
    ensures Filter(a + b, q) == Filter(a, q) + Filter(b, q)
  {
    if a == [] {
      assert a + b == b;
    } else {
      assert (a + b)[0] == a[0];
      assert (a + b)[1..] == a[1..] + b;
      FilterAppend(a[1..], b, q);
    }
  }

  /** A matching record occurs in the result as often as in the collection; any other record not at all. */
  lemma {:induction false} FilterCount(s: seq<Todo>, q: Query, t: Todo)
    ensures multiset(Filter(s, q))[t] == if Matches(t, q) then multiset(s)[t] else 0
  {
    if s != [] {
      FilterCount(s[1..], q, t);
      var head := if Matches(s[0], q) then [s[0]] else [];
      assert s == [s[0]] + s[1..];
      assert multiset(s) == multiset([s[0]]) + multiset(s[1..]);
      assert multiset(Filter(s, q)) == multiset(head) + multiset(Filter(s[1..], q));
    }
  }

  /** A record is in the result exactly when it is in the collection and matches the query. */
  lemma FilterMembers(s: seq<Todo>, q: Query)
    ensures forall t :: t in Filter(s, q) <==> t in s && Matches(t, q)
  {
    forall t
      ensures t in Filter(s, q) <==> t in s && Matches(t, q)
    {
      FilterCount(s, q, t);
    }
  }

  /** The query with no fields returns the whole collection. */
  lemma {:induction false} FilterEmptyQuery(s: seq<Todo>)
    ensures Filter(s, EmptyQuery) == s
  {
    if s != [] {
      FilterEmptyQuery(s[1..]);
    }
  }

  /** When no record matches, the result is empty. */
  lemma {:induction false} FilterNone(s: seq<Todo>, q: Query)
    requires forall k :: 0 <= k < |s| ==> !Matches(s[k], q)
    ensures Filter(s, q) == []
  {
    if s != [] {
      FilterNone(s[1..], q);
    }
  }

  // ---------------------------------------------------------------------------
  // Updating

  /** `s` with the supplied fields of `p` merged into the first record whose id is `id`. */
  function UpdateFirst(s: seq<Todo>, id: int, p: Patch): (r: seq<Todo>)
    ensures |r| == |s|
    ensures forall k :: 0 <= k < |s| ==> r[k].id == s[k].id
  {
    if s == [] then []
    else if s[0].id == id then [Apply(s[0], p)] + s[1..]
    else [s[0]] + UpdateFirst(s[1..], id, p)
  }

  /** When the first match is at `i`, only position `i` changes. */
  lemma {:induction false} UpdateFirstAt(s: seq<Todo>, id: int, p: Patch, i: int)
    requires FirstWithId(s, id, i)
    ensures UpdateFirst(s, id, p) == s[i := Apply(s[i], p)]
  {
    if i > 0 {
      UpdateFirstAt(s[1..], id, p, i - 1);
    }
  }

  /** When no record has the id, nothing changes. */
  lemma {:induction false} UpdateFirstAbsent(s: seq<Todo>, id: int, p: Patch)
    requires !HasId(s, id)
    ensures UpdateFirst(s, id, p) == s
  {
    if s != [] {
      assert !HasId(s[1..], id) by {
        forall k | 0 <= k < |s[1..]|
          ensures s[1..][k].id != id
        {
          assert s[1..][k] == s[k + 1];
        }
      }
      UpdateFirstAbsent(s[1..], id, p);
    }
  }

  /**
   * The whole effect of an update, position by position: the first record with the id
   * gets the supplied fields, and every other record stays as it was.
   */
  lemma UpdateFirstPointwise(s: seq<Todo>, id: int, p: Patch)
    ensures |UpdateFirst(s, id, p)| == |s|
    ensures forall k :: 0 <= k < |s| ==>
      UpdateFirst(s, id, p)[k] == if FirstWithId(s, id, k) then Apply(s[k], p) else s[k]
  {
    if HasId(s, id) {
      var i := FirstIndex(s, id);
      UpdateFirstAt(s, id, p, i);
      forall k | 0 <= k < |s| && k != i
        ensures !FirstWithId(s, id, k)
      {
        if k > i {
          assert s[i].id == id;
        }
      }
    } else {
      UpdateFirstAbsent(s, id, p);
    }
  }

  /** Applying the same update twice is the same as applying it once. */
  lemma {:induction false} UpdateFirstIdempotent(s: seq<Todo>, id: int, p: Patch)
    ensures UpdateFirst(UpdateFirst(s, id, p), id, p) == UpdateFirst(s, id, p)
  {
    if s != [] {
      var r := UpdateFirst(s, id, p);
      if s[0].id == id {
        assert r[0] == Apply(s[0], p) && r[1..] == s[1..];
        assert Apply(Apply(s[0], p), p) == Apply(s[0], p);
      } else {
        assert r[0] == s[0] && r[1..] == UpdateFirst(s[1..], id, p);
        UpdateFirstIdempotent(s[1..], id, p);
      }
    }
  }

  /** An update keeps the ids ascending and below the counter. */
  lemma UpdateFirstKeepsOrder(s: seq<Todo>, id: int, p: Patch, n: int)
    requires Ascending(s) && Below(s, n)
    ensures Ascending(UpdateFirst(s, id, p)) && Below(UpdateFirst(s, id, p), n)
  {
  }

  // ---------------------------------------------------------------------------
  // Removing

  /** `s` without its first record whose id is `id`. */
  function RemoveFirst(s: seq<Todo>, id: int): (r: seq<Todo>)
    ensures |s| - 1 <= |r| <= |s|
    ensures multiset(r) <= multiset(s)
  {
    if s == [] then []
    else
      assert s == [s[0]] + s[1..];
      if s[0].id == id then s[1..]
      else [s[0]] + RemoveFirst(s[1..], id)
  }

  /** When the first match is at `i`, exactly that record is cut out and the rest keep their order. */
  lemma {:induction false} RemoveFirstAt(s: seq<Todo>, id: int, i: int)
    requires FirstWithId(s, id, i)
    ensures RemoveFirst(s, id) == s[..i] + s[i + 1..]
  {
    if i > 0 {
      RemoveFirstAt(s[1..], id, i - 1);
      assert s[1..][..i - 1] == s[1..i];
      assert s[1..][i..] == s[i + 1..];
      assert [s[0]] + s[1..i] == s[..i];
    }
  }

  /** When no record has the id, nothing is removed. */
  lemma {:induction false} RemoveFirstAbsent(s: seq<Todo>, id: int)
    requires !HasId(s, id)
    ensures RemoveFirst(s, id) == s
  {
    if s != [] {
      assert !HasId(s[1..], id) by {
        forall k | 0 <= k < |s[1..]|
          ensures s[1..][k].id != id
        {
          assert s[1..][k] == s[k + 1];
        }
      }
      RemoveFirstAbsent(s[1..], id);
    }
  }

  /** Cutting one record out of `s` keeps ascending ids ascending and below the counter. */
  lemma CutKeepsOrder(s: seq<Todo>, i: int, n: int)
    requires 0 <= i < |s| && Ascending(s) && Below(s, n)
    ensures Ascending(s[..i] + s[i + 1..]) && Below(s[..i] + s[i + 1..], n)
  {
  }

  /** Removal keeps the ids ascending and below the counter. */
  lemma RemoveFirstKeepsOrder(s: seq<Todo>, id: int, n: int)
    requires Ascending(s) && Below(s, n)
    ensures Ascending(RemoveFirst(s, id)) && Below(RemoveFirst(s, id), n)
  {
    if HasId(s, id) {
      var i := FirstIndex(s, id);
      RemoveFirstAt(s, id, i);
      CutKeepsOrder(s, i, n);
    } else {
      RemoveFirstAbsent(s, id);
    }
  }

  /** With distinct ids, removing the same id a second time changes nothing. */
  lemma RemoveFirstIdempotent(s: seq<Todo>, id: int)
    requires UniqueIds(s)
    ensures RemoveFirst(RemoveFirst(s, id), id) == RemoveFirst(s, id)
  {
    if HasId(s, id) {
      var i := FirstIndex(s, id);
      RemoveFirstAt(s, id, i);
      var r := s[..i] + s[i + 1..];
      assert !HasId(r, id) by {
        forall k | 0 <= k < |r|
          ensures r[k].id != id
        {
          var j := if k < i then k else k + 1;
          assert r[k] == s[j] && j != i;
        }
      }
      RemoveFirstAbsent(r, id);
    } else {
      RemoveFirstAbsent(s, id);
    }
  }

  // ---------------------------------------------------------------------------
  // Resuming the id counter

  /** The largest id in a non-empty collection. */
  function MaxId(s: seq<Todo>): (m: int)
    requires s != []
    ensures forall k :: 0 <= k < |s| ==> s[k].id <= m
    ensures exists k :: 0 <= k < |s| && s[k].id == m
  {
    if |s| == 1 then s[0].id
    else
      var rest := MaxId(s[1..]);
      assert exists k :: 1 <= k < |s| && s[k].id == rest by {
        var k :| 0 <= k < |s[1..]| && s[1..][k].id == rest;
        assert s[k + 1].id == rest;
      }
      if s[0].id >= rest then s[0].id else rest
  }

  /**
   * The counter a store resumes from, given what it finds under its name: nothing
   * or an empty collection gives 0, otherwise the LAST record's id plus one.
   */
  function ResumedIndex(stored: Option<seq<Todo>>): (n: int)
    ensures stored.None? ==> n == 0
    ensures stored.Some? && stored.value != [] ==> n > stored.value[|stored.value| - 1].id
  {
    if stored.None? || stored.value == [] then 0
    else stored.value[|stored.value| - 1].id + 1
  }

  /** For a collection whose ids ascend, the last id plus one is the largest id plus one. */
  lemma ResumedIndexIsMaxPlusOne(s: seq<Todo>)
    requires s != [] && Ascending(s)
    ensures ResumedIndex(Some(s)) == MaxId(s) + 1
  {
  }

  /** For a collection whose ids ascend, the resumed counter is above every stored id. */
  lemma ResumedIndexAboveAll(s: seq<Todo>)
    requires Ascending(s)
    ensures Below(s, ResumedIndex(Some(s)))
  {
  }

  /**
   * For a collection whose ids do not ascend, the resumed counter can be an id that is
   * already stored: here it is 1, the id of the first record.
   */
  lemma UnorderedResumeReusesId()
    ensures var s := [Todo(1, "b", false), Todo(0, "a", false)];
      !Ascending(s) && ResumedIndex(Some(s)) == s[0].id
  {
    var s := [Todo(1, "b", false), Todo(0, "a", false)];
    assert s[0].id > s[1].id;
  }

  /**
   * Removing the last record of a collection whose ids ascend from a non-negative first id
   * and then reopening it resumes the counter at or below the removed id, so counting up
   * from there issues that id again.
   */
  lemma {:induction false} ReopenAfterRemovingLastReissuesId(s: seq<Todo>)
    requires s != [] && Ascending(s) && 0 <= s[0].id
    ensures ResumedIndex(Some(RemoveFirst(s, s[|s| - 1].id))) <= s[|s| - 1].id
  {
    var last := |s| - 1;
    assert FirstWithId(s, s[last].id, last);
    RemoveFirstAt(s, s[last].id, last);
    assert s[last + 1..] == [];
  }

  // ---------------------------------------------------------------------------
  // Round trips between saving and finding

  /** The query that selects records by id alone. */
  function IdQuery(id: int): Query {
    Query(Some(id), None, None)
  }

  /** The query that selects records by completion state alone. */
  function CompletedQuery(done: bool): Query {
    Query(None, None, Some(done))
  }

  /** A record just created with an id no stored record has is the only one a query for that id finds. */
  lemma CreatedRecordFound(s: seq<Todo>, n: int, title: string, completed: bool)
    requires !HasId(s, n)
    ensures Filter(s + [Todo(n, title, completed)], IdQuery(n)) == [Todo(n, title, completed)]
  {
    FilterAppend(s, [Todo(n, title, completed)], IdQuery(n));
    FilterNone(s, IdQuery(n));
  }

  /** After setting a record's completion state, a query for that state finds the record. */
  lemma UpdatedCompletedFound(s: seq<Todo>, id: int, i: int, done: bool)
    requires FirstWithId(s, id, i)
    ensures s[i].(completed := done) in Filter(UpdateFirst(s, id, Patch(None, Some(done))), CompletedQuery(done))
  {
    var r := UpdateFirst(s, id, Patch(None, Some(done)));
    UpdateFirstAt(s, id, Patch(None, Some(done)), i);
    assert r[i] == s[i].(completed := done);
    FilterMembers(r, CompletedQuery(done));
  }

  /** With distinct ids, after setting a record's completion state, a query for the opposite state misses it. */
  lemma UpdatedCompletedExcluded(s: seq<Todo>, id: int, done: bool)
    requires UniqueIds(s)
    ensures forall t :: t in Filter(UpdateFirst(s, id, Patch(None, Some(done))), CompletedQuery(!done)) ==> t.id != id
  {
    var p := Patch(None, Some(done));
    var r := UpdateFirst(s, id, p);
    FilterMembers(r, CompletedQuery(!done));
    UpdateFirstPointwise(s, id, p);
    forall t | t in r && t.id == id
      ensures t.completed == done
    {
      var k :| 0 <= k < |r| && r[k] == t;
      assert s[k].id == id;
      assert FirstWithId(s, id, k);
    }
  }
}
