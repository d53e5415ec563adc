# convex-demo data-access layer in Dafny

This project models the server-side handlers of the convex-demo application.
There are three record kinds, each with its own handlers: notes (`convex/notes.ts`),
tasks (`convex/tasks.ts`) and chat messages (`convex/messages.ts`).

The handlers run over an in-memory document store that stands in for
`ctx.db`. Each table is a `Store.Table`, a class with three fields:

- `rows`: a map from id to the user fields;
- `order`: the ids in insertion order;
- `nextId`: the next id to hand out.

The invariant `Valid` says that `order` lists every stored id exactly once, in
increasing order, and that every id is below `nextId`.

Queries are functions that read the table. Mutations are methods that modify
it. The record shapes follow `convex/schema.ts`.

The modules are:

- `Seqs`: `filter`, `reverse` and `take` on sequences, with their order and
  membership lemmas.
- `Sorting`: a stable sort driven by a JavaScript comparator that returns a
  number, like `Array.prototype.sort`. The sort is proved sorted, a
  permutation, and stable. `StableSortUnique` shows that any sorted sequence
  that keeps every class of equal elements in input order is this sort's
  output. So the algorithm the JavaScript engine uses does not change the
  result.
- `Store`: documents, ids, the `Table` class and the `db.query`, `get`,
  `insert`, `patch` and `delete` operations. It also has the delete-each loop
  that `clear` and `clearCompleted` run.
- `Notes`, `Tasks`, `Messages`: one module per handler file.

Each handler is proved against what it promises:

- the ordering rules of each `list`;
- which rows a mutation changes and which it leaves alone;
- the counts of `getStats` and the count `clearCompleted` returns;
- the trimming rule of `send`.

The source comment on `notes.ts` line 10 says notes are ordered "by creation
date". The comparator on lines 17-21 actually sorts by `updatedAt`. The model
follows the comparator.

## Model

| member | source | states |
|---|---|---|
| Seqs.Filter | convex/tasks.ts:14 | keeps exactly the elements satisfying the predicate, each no more often than in the input |
| Seqs.FilterKeepsOrder | convex/tasks.ts:13-15 | filtering keeps any order relation between earlier and later elements, so the filtered scan stays newest first |
| Seqs.Reverse | convex/messages.ts:18 | same length, element `k` is element `n-1-k` of the input |
| Seqs.Take | convex/messages.ts:15 | the first `n` elements, or all of them when there are fewer |
| Seqs.LastOfReversed | convex/messages.ts:12-18 | taking `n` from the reversed sequence and reversing back gives the last `n` elements in original order |
| Sorting.Sort | convex/tasks.ts:19-26 | the sorted result is a permutation of the input |
| Sorting.SortSorted | convex/tasks.ts:19-26 | under a consistent comparator the output never puts an element after one it compares greater than |
| Sorting.SortStable | convex/notes.ts:17-21 | every class of comparator-equal elements keeps its input order (stability) |
| Sorting.StableSortUnique | convex/notes.ts:17-21 | two sorted sequences with the same classes are equal: stability and sortedness determine the output |
| Sorting.SortTiesDescend | convex/tasks.ts:11-26 | if the input's keys strictly decrease, comparator-equal elements come out with decreasing keys |
| Sorting.SortTiedDescend | convex/notes.ts:11-21 | the same for any relation the comparator ranks equal: the ties of `list` keep the newest-first order of the scan |
| Store.Table.constructor | convex/schema.ts:6-37 | a new table is valid and empty |
| Store.Table.Get | convex/notes.ts:28 | present exactly when the id is stored, and then the stored document |
| Store.Table.Scan | convex/tasks.ts:33 | every stored document exactly once, in increasing id (insertion) order |
| Store.Table.ScanDesc | convex/tasks.ts:11 | every stored document exactly once, ids strictly decreasing (newest first) |
| Store.Table.ScanDescReversed | convex/messages.ts:12-15 | the descending scan is the ascending scan reversed |
| Store.Table.Insert | convex/notes.ts:43-50 | the id handed out is `nextId`, which then advances by one, so no id is ever reused; the new row added, appended last in order, nothing else changed, invariant kept |
| Store.Table.Patch | convex/notes.ts:70-73 | NotFound and no change on a missing id; otherwise only that row replaced; order and `nextId` unchanged |
| Store.Table.Delete | convex/notes.ts:80 | the row removed and its id dropped from the order, `nextId` unchanged; an absent id changes nothing |
| Store.Table.DeleteEach | convex/tasks.ts:84-86 | after the loop, exactly the listed ids are gone, the order loses exactly those, `nextId` is unchanged, and one row goes per listed stored document |
| Notes.CompareIsComparator | convex/notes.ts:17-21 | the notes comparator is antisymmetric in sign and transitive |
| Notes.Arrange | convex/notes.ts:17-21 | a permutation of the scan, pinned notes first, `updatedAt` non-increasing within each group, each class in scan order, ties newest first when the scan is newest first |
| Notes.List | convex/notes.ts:7-23 | every stored note exactly once, pinned first, then by decreasing `updatedAt`, full ties newest first |
| Notes.Get | convex/notes.ts:25-30 | the stored note, or absent exactly when the id is not stored |
| Notes.TogglePinIsUpdate | convex/notes.ts:84-95 | `togglePin` is the `update` that provides only the flipped pin |
| Notes.Create | convex/notes.ts:35-53 | the next id maps to an unpinned note with `createdAt == updatedAt == now` and `nextId` advances; other notes unchanged; `updatedAt >= createdAt` kept |
| Notes.Update | convex/notes.ts:55-75 | NotFound and no change on a missing id; otherwise the provided fields replaced, the others kept, `updatedAt := now`; `updatedAt >= createdAt` kept when the clock has not gone back |
| Notes.Remove | convex/notes.ts:77-82 | the note deleted; an absent id changes nothing |
| Notes.TogglePin | convex/notes.ts:84-96 | NotFound and no change on a missing id; otherwise `isPinned` flipped and `updatedAt := now`, nothing else changed |
| Tasks.CompareIsComparator | convex/tasks.ts:18-26 | the tasks comparator is antisymmetric in sign and transitive |
| Tasks.Visible | convex/tasks.ts:13-15 | a scanned task is kept unless `showCompleted` is false and it is completed |
| Tasks.Arrange | convex/tasks.ts:13-26 | a permutation of the visible tasks; incomplete first, then rank, then newest `createdAt`; full ties newest first when the scan is newest first |
| Tasks.List | convex/tasks.ts:6-28 | exactly the stored tasks, without the completed ones when `showCompleted` is false, each once, in the `list` order |
| Tasks.Tally | convex/tasks.ts:33-39 | `total` is the count; `completed`, `pending` and `highPriority` are the sizes of the completed, incomplete and incomplete high-priority filters; `completed + pending == total`, `highPriority <= pending`, `completed == 0` exactly when none is completed |
| Tasks.GetStats | convex/tasks.ts:30-41 | over the stored rows: `total` is the row count and `completed`, `pending`, `highPriority` the numbers of completed, incomplete and incomplete high-priority rows; `completed == 0` exactly when no row is completed |
| Tasks.ScanCounts | convex/tasks.ts:33-37 | over a scan of every row, each filter of `getStats` has as many elements as there are rows meeting its predicate |
| Store.FilterCount | convex/tasks.ts:35-37 | filtering a scan that lists each row once counts exactly the rows that meet the predicate |
| Tasks.Completed | convex/tasks.ts:79-82 | exactly the completed stored tasks, oldest first, as many as `getStats` counts as completed |
| Tasks.Create | convex/tasks.ts:43-58 | the next id maps to an incomplete task stamped `now` and `nextId` advances; other tasks unchanged |
| Tasks.Toggle | convex/tasks.ts:60-67 | NotFound and no change on a missing id; otherwise only `isCompleted` flipped, and no timestamp changes |
| Tasks.Remove | convex/tasks.ts:69-74 | the task deleted; an absent id changes nothing |
| Tasks.ClearCompleted | convex/tasks.ts:76-89 | exactly the completed tasks deleted, the rest and their order kept; the result equals the prior `completed` count and the number of rows removed |
| Messages.Trim | convex/messages.ts:28 | empty exactly when the body is all ECMAScript whitespace; otherwise starts and ends with non-whitespace |
| Messages.TrimUnique | convex/messages.ts:34 | trimming removes exactly the whitespace outside the first and last non-whitespace characters |
| Messages.TrimIdempotent | convex/messages.ts:34 | trimming a trimmed body changes nothing |
| Messages.List | convex/messages.ts:6-20 | the last `min(limit or 50, count)` messages of the chronological scan, oldest first |
| Messages.Send | convex/messages.ts:22-38 | InvalidArgument and no change for a blank body; otherwise the next id maps to the trimmed body stamped `now` and `nextId` advances; stored bodies stay non-blank and trimmed |
| Messages.Clear | convex/messages.ts:40-48 | every message deleted one by one, leaving an empty table with `nextId` unchanged |

## Left out

- The Convex runtime is not part of this model: reactive queries,
  subscriptions, client sync and the transaction machinery. Each handler is
  one sequential run that completes. A thrown "not found" or "cannot be
  empty" error becomes a `Status` or `Result` value. It is returned before any
  write, so nothing changes.
- Crash partway through the delete loops of `clear` and `clearCompleted`:
  every per-record delete succeeds in this model, so a partly cleared table
  is not modelled.
- Argument validators (`v.id`, `v.string`, …): ill-typed arguments and ids
  from another table cannot be expressed in the model.
- Ids: Convex's opaque id strings are naturals handed out in increasing
  order. The system field `_creationTime` is not a field of the model.
  Descending and ascending scans use insertion order, which is what
  `_creationTime` order amounts to for these tables.
- Numbers: JavaScript numbers are unbounded integers here. Rounding,
  NaN and infinities in timestamps, and the comparator's subtraction, are
  not modelled.
- `Date.now()` is the `now` parameter of each mutation.
- The schema's secondary indexes: no handler queries them.
- The files under `app/` (the React client) are not part of this model.
- Messages.List: `limit` is a natural number. Negative or fractional
  limits passed to `take` are not modelled.
- Store.Table.DeleteEach: it requires the listed documents in increasing id
  order. Both callers pass a scan, which always satisfies this.
- Store.Table.Delete: its contract states that deleting an absent id
  changes nothing. Whatever the Convex runtime itself does for such an id is
  not modelled.
- Sorting.Sort: the model sorts with an insertion sort. Any stable sort
  gives the same result under a consistent comparator (see
  `Sorting.StableSortUnique`), so `Array.prototype.sort`'s own algorithm is
  not modelled.
