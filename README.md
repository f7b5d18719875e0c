# Expense service model

A Dafny model of the expense domain service of an expense-tracking
application. Users (identified by email) record expenses and group them into
named expense lists. The service validates ids and emails, makes at most two
repository reads, checks ownership and membership, and then makes
at most one repository write or returns data.

The model has five modules:

- `Outcomes` (`outcomes.dfy`): `Option` stands for a Java reference that may
  be null. `Failure` is one of the two exceptions, `InvalidData` or
  `ItemNotFound`. `Status` and `Result` are the outcomes of void and
  value-returning operations.
- `ExpenseModel` (`expense_model.dfy`): the entities `Expense` (the request),
  `ExpenseItem` and `ExpenseItemList`. It also holds the id guard
  (`StringUtils.isEmpty` plus the UUID check), the effect of each repository
  write on the stored records, the guard ladders of the two list-membership
  operations (`AddOutcome`, `RemoveOutcome`) and the membership invariant. An
  item may be in a list only if it has the list's owner, and at most once.
  The lemmas relating these live here too.
- `ItemSort` (`item_sort.dfy`): the timestamp comparator and a stable
  insertion sort. The sort has a reference definition on sequences that is
  proved sorted, a permutation and stable. An in-place array sort is proved
  equal to it. The loop of `getExpenseListByEmail` sorts every non-null item
  sequence.
- `Service` (`expense_service.dfy`): the class `ExpenseService`. The
  repository is its state: `expenses` (id to item), `lists` (id to list) and
  `calls`, a log of every repository call, reads included. Every operation
  states its outcome, its new store and exactly which repository calls it
  made. A failing input guard makes no call at all. A later failure
  (a missing record, an owner mismatch, a membership check) makes only the
  reads and no write. The read operations never write.
- `Scenarios` (`scenarios.dfy`): client call sequences. These are create then
  get, add twice, and add then remove.

Modelling choices:

- A Java `null` id or email is `None`. Stored emails and titles are never
  null.
- The converter's generated id and timestamp are parameters of
  `CreateExpense`. The converter is not part of this model. `Convert`
  assumes that it copies the request's email, title and amount into the new
  item unchanged. `Scenarios.CreateThenGet` rests on that assumption.
- `expenseDate` is the already-parsed instant, an integer.
- `amount` is passed through unchanged, with no arithmetic.
- `contains` on a list's items is value equality of `ExpenseItem`. Because
  `expenseDate` is the parsed instant, two items whose stored date strings
  differ only in spelling count as equal here. For example, `...T10:00:00Z`
  and `...T10:00:00.000Z` are the same item. `ExpenseItem.equals` is not part of
  this model; if it compares the stored date strings, such items differ there.
- The repository's list writes are not part of this model, so they are
  modelled as follows:
  - adding appends the item, and a null sequence becomes a one-item sequence;
  - removing deletes the first equal item, and a null sequence stays null;
  - a new list has a null item sequence;
  - storing under an existing key replaces the record.
- Two choices follow the code as written:
  - A list whose items are null is not treated like an empty one. Removal
    from a null sequence goes ahead (`ExpenseService.java:145`), while removal
    from an empty one fails with `ItemNotFound`.
  - An owner mismatch fails with `ItemNotFound` only after both ids have
    passed the UUID guard. Malformed ids are reported as `InvalidData` first
    (`ExpenseService.java:90-107`).

## Model

| member | source | states |
|---|---|---|
| `ExpenseModel.IdGuardExamples` | Application/src/main/java/ata/unit/three/project/expense/service/ExpenseService.java:167-174 | null, `""` and `"bob"` fail the id guard; the fixed list id passes it |
| `ExpenseModel.UsableId` | Application/src/main/java/ata/unit/three/project/expense/service/ExpenseService.java:167-174 | the id guard of every id-taking operation: not null, not empty, and a UUID in the canonical form. An id that passes is present and 36 characters long. `IdGuardExamples` and `GuardOrder` pin down its cases |
| `ExpenseModel.AddOutcome` | Application/src/main/java/ata/unit/three/project/expense/service/ExpenseService.java:84-114 | the add guard ladder: null ids first, then malformed ids, then a missing item, a missing list, an owner mismatch and an item already present. It is `InvalidData` exactly for non-null malformed ids. Success implies both records exist with one owner. `AddSucceedsExactly` and `ReferentialFailuresAreNotFound` give the rest |
| `ExpenseModel.RemoveOutcome` | Application/src/main/java/ata/unit/three/project/expense/service/ExpenseService.java:119-149 | the remove guard ladder. Its last step asks for membership only when the items are not null. It is `InvalidData` exactly for non-null malformed ids. Success implies both records exist with one owner. `RemoveSucceedsExactly` and `NullAndEmptyItemsDiffer` give the rest |
| `ItemSort.Insert` | Application/src/main/java/ata/unit/three/project/expense/service/ExpenseService.java:160 | one step of the stable sort, which adds exactly one element. `InsertPermutes`, `InsertKeepsSorted` and `InsertIsStable` show that it keeps the multiset, keeps order and keeps equal timestamps in sequence |
| `ItemSort.SortByDate` | Application/src/main/java/ata/unit/three/project/expense/service/ExpenseService.java:160 | the reference stable sort by timestamp keeps the length. `SortIsSorted`, `SortPermutes` and `SortIsStable` state that it is sorted, a permutation and stable |
| `ItemSort.WithItemsSorted` | Application/src/main/java/ata/unit/three/project/expense/service/ExpenseService.java:158-162 | one list after the loop body keeps its id, owner, title and nullness. `WithItemsSortedMeaning` adds how its items are ordered |
| `ExpenseModel.CollectValues` | Application/src/main/java/ata/unit/three/project/expense/service/ExpenseService.java:157 | the repository's by-owner answer comes with the keys it was read from. Each owned key appears exactly once, and each entry is the record stored under the key at its position |
| `ExpenseModel.UpdatedExpenses` | Application/src/main/java/ata/unit/three/project/expense/service/ExpenseService.java:63-65 | the repository update sets the item's title and amount. Its id, owner and date stay the same, and so do all other items |
| `ExpenseModel.RemoveFirstCount` | Application/src/main/java/ata/unit/three/project/expense/service/ExpenseService.java:149 | the repository removal takes exactly one copy of the item out of the list's items |
| `ExpenseModel.RemoveFirstOfAppended` | Application/src/main/java/ata/unit/three/project/expense/service/ExpenseService.java:149 | removing an item appended to items that did not hold it gives the old items back |
| `ExpenseModel.GuardOrder` | Application/src/main/java/ata/unit/three/project/expense/service/ExpenseService.java:84-92 | in both membership operations, a null id is `ItemNotFound` before any syntax check. Non-null ids that are empty or malformed are `InvalidData`, and for add `InvalidData` occurs exactly then |
| `ExpenseModel.ReferentialFailuresAreNotFound` | Application/src/main/java/ata/unit/three/project/expense/service/ExpenseService.java:94-107 | once both ids are well formed, a missing item, a missing list or an owner mismatch is `ItemNotFound` for add and for remove, never `InvalidData` |
| `ExpenseModel.AddSucceedsExactly` | Application/src/main/java/ata/unit/three/project/expense/service/ExpenseService.java:84-114 | add succeeds iff both ids are valid, both records exist, the owners match and the item is not yet in the list |
| `ExpenseModel.RemoveSucceedsExactly` | Application/src/main/java/ata/unit/three/project/expense/service/ExpenseService.java:119-149 | remove succeeds iff both ids are valid, both records exist, the owners match and the item is in the list's items, or those items are null |
| `ExpenseModel.NullAndEmptyItemsDiffer` | Application/src/main/java/ata/unit/three/project/expense/service/ExpenseService.java:145 | after the shared guards, removal from a null item sequence goes ahead, and removal from an empty one is `ItemNotFound` |
| `ExpenseModel.AddThenRepeatFails` | Application/src/main/java/ata/unit/three/project/expense/service/ExpenseService.java:110-114 | after a successful add, the item is in the list and has the list's owner. No other list changed, and the same add now fails with `ItemNotFound` |
| `ExpenseModel.AddKeepsInvariant` | Application/src/main/java/ata/unit/three/project/expense/service/ExpenseService.java:105-114 | a successful add keeps the membership invariant (owner match, no duplicates) |
| `ExpenseModel.RemoveKeepsInvariant` | Application/src/main/java/ata/unit/three/project/expense/service/ExpenseService.java:140-149 | a successful remove keeps the membership invariant |
| `ExpenseModel.RemoveThenRepeatFails` | Application/src/main/java/ata/unit/three/project/expense/service/ExpenseService.java:145-149 | under the invariant, a successful removal from a non-null sequence takes the item out, and the same removal then fails with `ItemNotFound` |
| `ExpenseModel.RemoveUndoesAdd` | Application/src/main/java/ata/unit/three/project/expense/service/ExpenseService.java:82-150 | removing right after a successful add succeeds and restores the list's items (a null sequence comes back empty). All other lists are unchanged |
| `ExpenseModel.ConstantListIdOverwrites` | Application/src/main/java/ata/unit/three/project/expense/service/ExpenseService.java:75-80 | two list creations as written add only one key, and the second list replaces the first |
| `ItemSort.CompareByDate` | Application/src/main/java/ata/unit/three/project/expense/service/ExpenseService.java:176-185 | the comparator's sign agrees with the order of the two timestamps |
| `ItemSort.SortIsSorted` | Application/src/main/java/ata/unit/three/project/expense/service/ExpenseService.java:160 | the sort orders items ascending by timestamp |
| `ItemSort.SortPermutes` | Application/src/main/java/ata/unit/three/project/expense/service/ExpenseService.java:160 | the sort is a permutation of its input |
| `ItemSort.SortIsStable` | Application/src/main/java/ata/unit/three/project/expense/service/ExpenseService.java:160 | the sort is stable: items sharing a timestamp keep their relative order |
| `ItemSort.SortInPlace` | Application/src/main/java/ata/unit/three/project/expense/service/ExpenseService.java:160 | sorting the array in place leaves the reference stable sort of its old contents |
| `ItemSort.WithItemsSortedMeaning` | Application/src/main/java/ata/unit/three/project/expense/service/ExpenseService.java:158-162 | a processed list keeps its id, owner, title and nullness. A non-null sequence becomes a sorted, stable permutation of itself |
| `ItemSort.SortListItems` | Application/src/main/java/ata/unit/three/project/expense/service/ExpenseService.java:156-164 | the loop keeps the number and order of the lists, and each list is processed as `WithItemsSorted` says |
| `ItemSort.ThreeItemsExample` | Application/src/main/java/ata/unit/three/project/expense/service/ExpenseService.java:160 | items dated T2, T0, T1 with T0 < T1 < T2 come out as T0, T1, T2 |
| `Service.ExpenseService.constructor` | Application/src/main/java/ata/unit/three/project/expense/service/ExpenseService.java:28-33 | the service starts over the injected repository's records, with no calls made |
| `Service.ExpenseService.GetExpenseById` | Application/src/main/java/ata/unit/three/project/expense/service/ExpenseService.java:35-40 | a null, empty or non-UUID id is `InvalidData` with no repository call. Otherwise one read returns the stored item or null |
| `Service.ExpenseService.GetExpensesByEmail` | Application/src/main/java/ata/unit/three/project/expense/service/ExpenseService.java:42-47 | a null or empty email is `InvalidData` with no call. Otherwise one read returns one entry per stored key of that owner, namely the record under that key, and no write |
| `Service.ExpenseService.CreateExpense` | Application/src/main/java/ata/unit/three/project/expense/service/ExpenseService.java:49-53 | the converted item is stored under its id and that id is returned, with exactly one write |
| `Service.ExpenseService.UpdateExpense` | Application/src/main/java/ata/unit/three/project/expense/service/ExpenseService.java:55-66 | a bad id is `InvalidData` with no call. A missing item is `ItemNotFound` after one read and no write (no failure writes). Otherwise the read is followed by one update that sets only that item's title and amount |
| `Service.ExpenseService.DeleteExpense` | Application/src/main/java/ata/unit/three/project/expense/service/ExpenseService.java:68-73 | a bad id is `InvalidData` with no call. Otherwise exactly that key is removed by one write |
| `Service.ExpenseService.CreateExpenseList` | Application/src/main/java/ata/unit/three/project/expense/service/ExpenseService.java:75-80 | the list goes under the fixed id, replacing any list there. The id passed to the store is the one returned, and the membership invariant is kept |
| `Service.ExpenseService.CreateExpenseListFresh` | Application/src/main/java/ata/unit/three/project/expense/service/ExpenseService.java:75-80 | with a fresh id, the new list is added, every earlier list is kept, and the membership invariant is kept |
| `Service.ExpenseService.AddExpenseItemToList` | Application/src/main/java/ata/unit/three/project/expense/service/ExpenseService.java:82-115 | the outcome is the add guard ladder. Both reads happen only once the ids are well formed. The one append write happens only on success, and the membership invariant is kept |
| `Service.ExpenseService.RemoveExpenseItemToList` | Application/src/main/java/ata/unit/three/project/expense/service/ExpenseService.java:117-150 | the outcome is the remove guard ladder. Both reads happen only once the ids are well formed. Exactly one removal call for that item on that list happens only on success, and the membership invariant is kept |
| `Service.ExpenseService.GetExpenseListByEmail` | Application/src/main/java/ata/unit/three/project/expense/service/ExpenseService.java:152-165 | a null or empty email is `InvalidData` with no call. Otherwise one read returns one entry per stored key of that owner, namely that list with its non-null item sequence sorted, and no write |
| `Scenarios.CreateThenGet` | Application/src/main/java/ata/unit/three/project/expense/service/ExpenseService.java:49-53 | create then get by the returned id yields an item with the request's owner, title and amount |
| `Scenarios.AddTwice` | Application/src/main/java/ata/unit/three/project/expense/service/ExpenseService.java:108-114 | two identical adds never both succeed. If the first succeeds, the second is `ItemNotFound` and the list gained the item once |
| `Scenarios.AddThenRemove` | Application/src/main/java/ata/unit/three/project/expense/service/ExpenseService.java:114-149 | a successful add followed by the same remove succeeds and restores the list's items |

## Findings

| source | as written | input that shows it | evidently intended | confidence | as-written member | corrected member |
|---|---|---|---|---|---|---|
| Application/src/main/java/ata/unit/three/project/expense/service/ExpenseService.java:77 | every list is created under the fixed id `c5156c9f-4306-45b6-9b39-2eeb180a702a` | `createExpenseList("a@x.com", "Trip")` then `createExpenseList("b@y.com", "Food")`: the second list replaces the first | a fresh random UUID per call, as the line above it once generated | medium, not executed | `ExpenseModel.ConstantListIdOverwrites` | `Service.ExpenseService.CreateExpenseListFresh` |

## Left out

- The AWS Lambda handlers (`UpdateExpense.java`, `AddExpenseItemToList.java`) are left out. They are request parsing, logging and status-code mapping.
- The dependency-injection module `App.java` is left out. It only has provider methods.
- The repository and the converter are not part of this model. The repository is abstract state, with the write effects listed above. The converter's id and date generation are parameters.
- UUID syntax is modelled as the canonical 8-4-4-4-12 hex form. The JDK's `UUID.fromString` accepts more, for example short groups.
- Timestamp parsing (`Instant.parse`) and its failures are left out. `expenseDate` is the parsed value.
- Floating-point behaviour of `amount` is left out. The value is only passed through.
- Exception message strings and error payloads are left out. Only the failure kind is modelled.
- A null email or title inside a stored record or a request is left out. A null email on the stored item would make the owner check (`ExpenseService.java:105`, `:140`) throw a NullPointerException. A null email on the stored list would make that check fail with `ItemNotFound`.
- Concurrency and atomicity between a read and the following write are left out. The operations are sequential.
- Service.ExpenseService.GetExpensesByEmail: does not state the order of the returned items, because the repository's query order is not part of this model.
- Service.ExpenseService.GetExpenseListByEmail: does not state the order of the returned lists, because the repository's query order is not part of this model. That the loop keeps the number and order of the lists it receives is stated by `ItemSort.SortListItems`.
- Service.ExpenseService.GetExpenseListByEmail: `Collections.sort` at `ExpenseService.java:160` is taken to sort the lists the repository returned, not the stored records. So the operation changes only the call log. Aliasing is not captured: a repository that hands out its stored objects would have them reordered too.
- ItemSort.SortInPlace: `Collections.sort` is a merge sort and is modelled by a stable insertion sort. The model does not prove that all stable sorts by one key give the same result.
