# Transaction cache of CryptoProfitLog

This project models the in-memory transaction list that `TransactionProvider`
keeps in `src/providers/transaction/transaction.ts`. The list is a cache of
the store's transaction documents, ordered newest first, and it has three
parts:

- **Cache fill.** `getAllTransactions` returns the cached list once it is set.
  Until then it reads a full snapshot (`allDocs`), takes the rows' documents in
  row order and sorts them. In the same callback it registers the change
  listener.
- **Reconciliation.** `handleChange` applies one delivered change. It scans the
  list for the changed id. It then deletes the document, replaces it, or
  appends the new one, and re-sorts the whole list.
- **Ordering.** The comparator `sortTransactions` puts the newer date first and
  answers 0 for equal dates.

Files:

- `wrappers.dfy`: `Option` and `Result`.
- `transaction.dfy` (module `Transaction`): the documents, rows and changes
  as datatypes, the comparator, and the in-place array sort used for
  `Array.prototype.sort`. It also holds the specification of one
  reconciliation step (`LastIndexOf`, `Reconcile`) and the lemmas about
  ordering, the reconciliation cases and id uniqueness.
- `provider.dfy` (module `Provider`): the class `TransactionProvider` with its
  `data` field and the methods `GetAllTransactions`, `FindChanged` (the
  `forEach` scan) and `HandleChange`. Two client methods,
  `ChangeAfterLoad` and `UpdateThenDeleteTwice`, replay concrete scenarios
  against the method contracts.

The model follows the code where the code departs from the intended design of
the cache:

- **Delete of an absent id is not a no-op.** The scan leaves `changedIndex` at
  `null`, and `splice(null, 1)` reads `null` as index 0. So the first document
  (the newest one) is removed, unless the list is empty. A repeated delete of
  the same id therefore removes a second document. See
  `ReconcileDeleteAbsent` and `DeleteIsNotIdempotent`.
- **No shared in-flight load.** Every call made while `data` is unset reads the
  store again (`readStore` in `GetAllTransactions`).
- **Load errors are swallowed.** The error is only logged. The returned
  promise never settles (`NeverSettles`) and `data` stays unset, so a later
  call reads again.
- **Duplicate ids.** The scan has no early exit, so when an id occurs twice the
  last occurrence is the one changed. Given unique ids and a change whose
  document carries the change's id, ids stay unique after every change.

## Model

| member | source | states |
|---|---|---|
| `Transaction.SortTransactions` | src/providers/transaction/transaction.ts:133-143 | answers -1 exactly when the first date is later, 1 exactly when it is earlier, and 0 exactly when the dates are equal |
| `Transaction.SortTransactionsAntisymmetric` | src/providers/transaction/transaction.ts:133-143 | swapping the arguments negates the answer |
| `Transaction.SortTransactionsTransitive` | src/providers/transaction/transaction.ts:133-143 | "not after" is transitive, so the comparator is a consistent ordering for `sort` |
| `Transaction.SortedDescAdjacent` | src/providers/transaction/transaction.ts:133-143 | newest-first order over all pairs holds exactly when every adjacent pair has `a.date >= b.date` |
| `Transaction.SortByDate` | src/providers/transaction/transaction.ts:123 | sorting in place with the comparator leaves the array newest first and a permutation of what it held |
| `Transaction.SinkLast` | src/providers/transaction/transaction.ts:123 | one insertion step: a sorted prefix of length i becomes a sorted prefix of length i + 1, and the array stays a permutation |
| `Transaction.LastIndexOf` | src/providers/transaction/transaction.ts:104-109 | gives the last index whose document has the id, and None exactly when no document has it |
| `Transaction.Reconcile` | src/providers/transaction/transaction.ts:111-121 | a delete always drops one document from a non-empty list; a non-deleted change always leaves its document in the list |
| `Transaction.ReconcileUpdatePresent` | src/providers/transaction/transaction.ts:116-117 | an update of a present id overwrites the last document with that id; length and every other position are unchanged, and the multiset swaps the old document for the new |
| `Transaction.ReconcileInsertAbsent` | src/providers/transaction/transaction.ts:118-119 | an update of an absent id appends the document, so the list is the old list plus that document |
| `Transaction.ReconcileDeletePresent` | src/providers/transaction/transaction.ts:112-113 | a delete of a present id removes exactly the last document with that id; the length drops by one and the rest keep their order |
| `Transaction.ReconcileDeleteAbsent` | src/providers/transaction/transaction.ts:101-113 | a delete of an absent id removes the first document, and leaves an empty list empty |
| `Transaction.UniqueIdsPermutation` | src/providers/transaction/transaction.ts:123 | reordering the list keeps its ids unique, so the re-sort cannot create a duplicate |
| `Transaction.ReconcileKeepsIdsUnique` | src/providers/transaction/transaction.ts:104-121 | with unique ids and a change whose document has the change's id, every kind of change keeps the ids unique |
| `Transaction.DeleteIsNotIdempotent` | src/providers/transaction/transaction.ts:101-123 | after a present id is deleted and the list re-sorted, deleting it again removes the first remaining document, so two deletes shrink the list by two |
| `Provider.TransactionProvider.constructor` | src/providers/transaction/transaction.ts:13 | a new provider has no cached list |
| `Provider.TransactionProvider.GetAllTransactions` | src/providers/transaction/transaction.ts:36-62 | once loaded, returns the cached list unchanged without reading the store. Otherwise it always reads. On success the cache is the snapshot's documents, sorted newest first, with unique ids kept. On failure nothing is cached and the reply never settles |
| `Provider.TransactionProvider.FindChanged` | src/providers/transaction/transaction.ts:101-109 | the scan returns the last index holding the id, or None exactly when the id is absent |
| `Provider.TransactionProvider.HandleChange` | src/providers/transaction/transaction.ts:100-124 | after a change the cache is sorted newest first, is a permutation of the reconciled list, and keeps its ids unique |

## Left out

- The PouchDB construction and the live `sync` with the CouchDB URL
  (transaction.ts:17-29): these are library and network set-up.
- `createTransaction`, `updateTransaction` and `deleteTransaction`
  (transaction.ts:69-93): they only forward to the store's `post`, `put` and
  `remove`. They never touch `data`; the cache changes only when the change
  feed delivers the resulting change to `HandleChange`.
- The change-listener registration and the Promise plumbing
  (transaction.ts:41-44, 51, 55-57). A set `data` stands for "listener
  registered", since both happen in the same callback. Each delivered change
  is a direct call to `HandleChange`. `HandleChange` requires a loaded cache
  because the listener only exists after the load.
- `GetAllTransactions`: the snapshot read finishes inside the call. So two
  loads cannot be in flight at once. In the source, both would overwrite
  `data` and register two listeners. That interleaving is not modelled.
- `GetAllTransactions`: the reply carries the list as a value. In the source
  the promise resolves with the same array object as `data`. That array is
  sorted right after `resolve`, and later changes keep mutating it in place.
  This aliasing is not modelled.
- `SortByDate`: the engine's sort algorithm and its order among equal dates
  are not modelled. An insertion sort stands in for it. Its contract promises
  only newest-first order and a permutation, since the comparator answers 0
  for equal dates. `HandleChange` and `GetAllTransactions` sort a buffer
  holding the list and then store the buffer's contents in `data`. They do
  not sort the field's own array.
- `console.log` error reporting (transaction.ts:58-60, 79-81, 90-92).
- Dates are integers. The JavaScript `Date`/string comparison semantics of
  `date` are not modelled.
- A delete change's document is carried but unused, as in the source.
