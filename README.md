# To-do store model

This project models the persistence layer of a small client-side to-do list
application: the `Store` class of `js/store.js`. A store keeps an ordered collection
of to-do records `{id, title, completed}` under a name in the browser's persistent
key-value storage, together with an integer counter, `index`, that supplies the id
of the next record it creates. Its operations are:

- `find`: filters the records by exact field match;
- `findAll`: returns every record;
- `save`: either creates a record with the counter's id (an id no stored record has
  while ids are ordered), or merges fields into an existing record;
- `remove`: deletes the first record with a given id;
- `drop`: empties the collection.

The model has three modules:

- `Records` (`records.dfy`) holds the record, query and update-data values. It also
  holds the per-record match test and the field merge.
- `Collection` (`collection.dfy`) treats the collection as a value. `Filter`,
  `UpdateFirst` and `RemoveFirst` are the specifications of the store's operations.
  `ResumedIndex` is how the counter is resumed. The lemmas say what these functions
  mean: membership and multiplicity, order, the only position that changes,
  idempotence, and which ids remain unused.
- `TodoStore` (`store.dfy`) is the class `Store`. Its fields are `todos` (the
  persisted collection) and `index`. `Find`, `Update` and `Remove` each have a loop,
  proved to compute `Filter`, `UpdateFirst` and `RemoveFirst` respectively. The
  constructor, `FindAll`, `Create` and `Drop` have no loop; their contracts state the
  new state directly. Every mutating method keeps `IdsOrdered()` whenever it held
  before the call. `IdsOrdered()` says that ids strictly ascend and are all below
  `index`, so the next created id is new; it implies that ids are pairwise distinct.

The stored entry becomes the field `todos`. Reading it back and writing it again
(JSON parse and stringify) become plain reads and writes of that field. A value that
the source passes to a callback is returned instead.

What the code does about ids, stated against the source's own comments:

- On reopening a non-empty collection, the counter resumes at the id of the LAST
  record plus one (`js/store.js:46-50`). The constructor's comment
  (`js/store.js:14-17`) says this avoids id conflicts only as long as records are
  never reordered. `Collection.ResumedIndexIsMaxPlusOne` proves that, when ids
  ascend, this equals the largest id plus one. `Collection.UnorderedResumeReusesId`
  shows a collection whose ids do not ascend; its resumed counter is an id that is
  already stored.
- When ids ascend from a non-negative first id, removing the last record and then
  reopening the store resumes the counter at or below the removed record's id, so a
  later create issues that id again (`Collection.ReopenAfterRemovingLastReissuesId`).
  When the remaining ids have gaps, the next create need not be the one that
  reissues it. Within one open store, `remove` never touches the counter, so while
  ids are ordered (`IdsOrdered()`) this happens only across a reopen. A store opened
  over ids that do not ascend can reissue a removed id without any reopen.
- `drop` replaces the collection with an empty one but does not touch `index`
  (`js/store.js:174-178`), although its comment says it starts "fresh"
  (`js/store.js:166-172`). After a drop, new ids continue from the old counter.

## Model

| member | source | states |
|---|---|---|
| `TodoStore.Store.constructor` | js/store.js:26-53 | With nothing stored, the collection is empty and `index` is 0. With a stored collection, that collection is kept. An empty one gives `index` 0. A non-empty one gives the last record's id plus one. The id-order invariant holds from the start when nothing is stored or the stored ids ascend. |
| `TodoStore.Store.IdsOrdered` | js/store.js:15-17 | The invariant that the constructor comment relies on: ids strictly ascend and are below the counter. It implies that no two records share an id. |
| `Collection.ResumedIndex` | js/store.js:36-50 | The counter rule on opening: with nothing stored it is 0, and with a non-empty stored collection it is above the last record's id (it is that id plus one; an empty stored collection gives 0). |
| `Collection.ResumedIndexIsMaxPlusOne` | js/store.js:46-50 | When ids ascend, the last id plus one equals the largest id plus one. |
| `Collection.ResumedIndexAboveAll` | js/store.js:15-17 | When ids ascend, the resumed counter is above every stored id, so new ids cannot clash. |
| `Collection.UnorderedResumeReusesId` | js/store.js:46-49 | When ids are not in order, the resumed counter can equal an id already stored. |
| `Collection.ReopenAfterRemovingLastReissuesId` | js/store.js:46-50 | When ids ascend from a non-negative first id, removing the last record and reopening resumes the counter at or below the removed id, so a later create issues that id again. |
| `Collection.AscendingUnique` | js/store.js:15-17 | Ids in ascending order are pairwise distinct. |
| `TodoStore.Store.Find` | js/store.js:73-88 | With no callback, the result is nothing. Otherwise the result is `Filter` of the collection: a record is in it exactly when it is stored and matches every supplied query field. The collection is not modified. |
| `Records.Matches` | js/store.js:81-86 | Its body defines matching: every field the query supplies equals the record's field, and an absent field constrains nothing. Its contract states that a query with no fields matches every record, that a query of a record's own fields matches that record, and that a supplied field that differs rules the record out. |
| `Collection.Filter` | js/store.js:80-87 | The filtered result is never longer than the collection. |
| `Collection.FilterMembers` | js/store.js:80-87 | A record is in the result if and only if it is in the collection and matches the query. |
| `Collection.FilterCount` | js/store.js:80-87 | A matching record occurs in the result as often as in the collection. A non-matching record never occurs. |
| `Collection.FilterAppend` | js/store.js:80 | Filtering distributes over concatenation, so matches keep their original relative order. |
| `Collection.FilterEmptyQuery` | js/store.js:81-86 | A query with no fields returns the whole collection unchanged. |
| `Collection.FilterNone` | js/store.js:80-87 | When no record matches, the result is empty. |
| `TodoStore.Store.FindAll` | js/store.js:95-98 | Returns exactly the stored collection. |
| `TodoStore.Store.Create` | js/store.js:130-139 | The new record's id is the old `index`. `index` grows by exactly one. The record is appended after the unchanged earlier records. The result is the one-element sequence holding the record. If ids were ordered before, they still are, and a query by the new id finds just that record. |
| `Collection.AppendKeepsOrder` | js/store.js:131-136 | Appending a record with the counter's id keeps ids ascending, and all of them stay below the advanced counter. |
| `Collection.CreatedRecordFound` | js/store.js:130-139 | After appending a record whose id no stored record has, a query for that id returns exactly the new record. |
| `TodoStore.Store.Update` | js/store.js:118-129 | The collection becomes `UpdateFirst` of the old one. If no record has the id, nothing changes. `index` is untouched. The result is the whole collection. The id-order invariant is kept. |
| `Collection.FirstIndex` | js/store.js:119-120 | Gives the position of the first record holding the id: no earlier record holds it. |
| `Records.Apply` | js/store.js:121-123 | The merged record keeps its id. Each supplied field takes the update's value, and each absent field keeps the record's value. Empty update data leaves the record unchanged. |
| `Collection.UpdateFirst` | js/store.js:119-126 | An update keeps the length, and keeps every record's id at every position. |
| `Collection.UpdateFirstAt` | js/store.js:119-126 | When the first match is at position i, only position i changes, and it gets the supplied fields merged in. |
| `Collection.UpdateFirstAbsent` | js/store.js:119-128 | When no record holds the id, the collection is unchanged. |
| `Collection.UpdateFirstPointwise` | js/store.js:119-126 | At each position: the first record with the id gets the supplied fields, and every other record is unchanged. |
| `Collection.UpdateFirstIdempotent` | js/store.js:119-126 | Applying the same update twice gives the same collection as applying it once. |
| `Collection.UpdateFirstKeepsOrder` | js/store.js:119-126 | An update keeps ids ascending and below the counter. |
| `Collection.UpdatedCompletedFound` | js/store.js:118-129 | After setting a record's completed flag, a query for that flag value finds the updated record. |
| `Collection.UpdatedCompletedExcluded` | js/store.js:118-129 | With distinct ids, after setting a record's completed flag, a query for the opposite value returns no record with that id. |
| `TodoStore.Store.Remove` | js/store.js:151-164 | The collection becomes `RemoveFirst` of the old one. If no record has the id, nothing changes. `index` is untouched. The result is the resulting collection. The id-order invariant is kept. |
| `Collection.RemoveFirst` | js/store.js:155-160 | Removal shortens the collection by at most one and never adds a record. |
| `Collection.RemoveFirstAt` | js/store.js:155-160 | When the first match is at position i, exactly that record is cut out. The records before and after it keep their order. |
| `Collection.RemoveFirstAbsent` | js/store.js:155-162 | When no record holds the id, the collection is unchanged. |
| `Collection.CutKeepsOrder` | js/store.js:157 | Cutting one record out keeps ids ascending and below the counter. |
| `Collection.RemoveFirstKeepsOrder` | js/store.js:155-160 | Removal keeps ids ascending and below the counter. |
| `Collection.RemoveFirstIdempotent` | js/store.js:155-160 | With distinct ids, removing the same id twice is the same as removing it once. |
| `TodoStore.Store.Drop` | js/store.js:174-178 | The collection becomes empty and the empty sequence is returned. `index` keeps its old value. |

## Left out

- Storage mechanics: the browser's key-value storage, the store's name, and JSON
  encoding and decoding are not modelled. The collection is the field `todos`. What
  the constructor finds under its name is its parameter `stored`, where `None` means
  no entry.
- Callbacks: each result is returned instead of being passed to a callback. The
  constructor's callback gets the stored data, which the model holds in `todos`.
  `find` without a callback is modelled by its `hasCallback` flag. In the source,
  `remove` and `drop` given no callback throw after persisting. The model does not
  capture that throw.
- `save`'s dispatch on whether an id is given becomes the choice between `Create`
  (no id) and `Update` (an id).
- Open-ended objects: records, queries and update data have only the fields `id`,
  `title` and `completed`. In the source, a record is whatever object the caller
  passed, so it may lack a field or carry extra ones. Such a record is not modelled.
- Update data never carries an `id`. In the source, the key loop could overwrite a
  record's id, and the model does not capture that.
- Loose equality (`==`) in `remove` versus strict equality (`===`) in `save` is not
  modelled. Ids are integers, and for integers the two coincide.
- Ids are unbounded integers. The floating-point precision limit of JavaScript
  numbers is not modelled.
