/** The expense domain service. The repository it is given is modelled as the
    state of the service object: the stored expenses by id, the stored lists
    by id, and the log of every call made into the repository, reads
    included. Each operation validates its inputs, reads, checks, and then
    makes at most one write. */
module Service {
  import opened Outcomes
  import opened ExpenseModel
  import opened ItemSort

  class ExpenseService {
    var expenses: map<string, ExpenseItem>
    var lists: map<string, ExpenseItemList>
    var calls: seq<RepoCall>

    /** The service over a repository holding the given records. */
    constructor(storedExpenses: map<string, ExpenseItem>, storedLists: map<string, ExpenseItemList>)
      ensures expenses == storedExpenses && lists == storedLists && calls == []
    {
      expenses := storedExpenses;
      lists := storedLists;
      calls := [];
    }

    /** getExpenseById: a malformed id is invalid data and reaches no
        repository; otherwise the stored item or null. */
    method GetExpenseById(expenseId: Option<string>) returns (r: Result<Option<ExpenseItem>>)
      modifies this`calls
      ensures !UsableId(expenseId) ==> r == Err(InvalidData) && calls == old(calls)
      ensures UsableId(expenseId) ==>
        && r == Ok(Lookup(expenses, expenseId.value))
        && calls == old(calls) + [RepoCall.GetExpenseById(expenseId.value)]
    {
      if IsEmpty(expenseId) || !ValidUuid(expenseId.value) {
        return Err(InvalidData);
      }
      calls := calls + [RepoCall.GetExpenseById(expenseId.value)];
      r := Ok(Lookup(expenses, expenseId.value));
    }

    /** getExpensesByEmail: a null or empty email is invalid data; otherwise
        the stored items of that owner, one entry per stored key, and no
        write. */
    method GetExpensesByEmail(email: Option<string>) returns (r: Result<seq<ExpenseItem>>)
      modifies this`calls
      ensures IsEmpty(email) ==> r == Err(InvalidData) && calls == old(calls)
      ensures !IsEmpty(email) ==> r.Ok? && calls == old(calls) + [RepoCall.GetExpensesByEmail(email.value)]
      ensures r.Ok? ==>
        exists ks :: EnumeratesKeys(ks, ExpenseKeysOwnedBy(expenses, email.value)) && ValuesUnder(r.value, expenses, ks)
    {
      if IsEmpty(email) {
        return Err(InvalidData);
      }
      calls := calls + [RepoCall.GetExpensesByEmail(email.value)];
      var owned := ExpenseKeysOwnedBy(expenses, email.value);
      var ks, found := CollectValues(expenses, owned);
      r := Ok(found);
    }

    /** createExpense: the converted item is stored under its id, which is
        returned. */
    method CreateExpense(draft: Expense, newId: string, date: int) returns (id: string)
      modifies this`expenses, this`calls
      ensures id == Convert(draft, newId, date).id
      ensures expenses == old(expenses)[id := Convert(draft, newId, date)]
      ensures calls == old(calls) + [RepoCall.CreateExpense(Convert(draft, newId, date))]
    {
      var item := Convert(draft, newId, date);
      expenses := expenses[item.id := item];
      calls := calls + [RepoCall.CreateExpense(item)];
      id := item.id;
    }

    /** updateExpense: a malformed id is invalid data and reaches no
        repository; an id with no stored item is not found and writes
        nothing; otherwise only that item's title and amount change. */
    method UpdateExpense(expenseId: Option<string>, draft: Expense) returns (r: Status)
      modifies this`expenses, this`calls
      ensures r.Failed? ==> forall i :: |old(calls)| <= i < |calls| ==> !calls[i].IsWrite()
      ensures !UsableId(expenseId) ==>
        r == Failed(InvalidData) && expenses == old(expenses) && calls == old(calls)
      ensures UsableId(expenseId) && expenseId.value !in old(expenses) ==>
        && r == Failed(ItemNotFound)
        && expenses == old(expenses)
        && calls == old(calls) + [RepoCall.GetExpenseById(expenseId.value)]
      ensures UsableId(expenseId) && expenseId.value in old(expenses) ==>
        && r == Done
        && expenses == UpdatedExpenses(old(expenses), expenseId.value, draft.title, draft.amount)
        && calls == old(calls) + [RepoCall.GetExpenseById(expenseId.value),
                                  RepoCall.UpdateExpense(expenseId.value, draft.title, draft.amount)]
    {
      if IsEmpty(expenseId) || !ValidUuid(expenseId.value) {
        return Failed(InvalidData);
      }
      var item := Lookup(expenses, expenseId.value);
      calls := calls + [RepoCall.GetExpenseById(expenseId.value)];
      if item.None? {
        return Failed(ItemNotFound);
      }
      expenses := UpdatedExpenses(expenses, expenseId.value, draft.title, draft.amount);
      calls := calls + [RepoCall.UpdateExpense(expenseId.value, draft.title, draft.amount)];
      r := Done;
    }

    /** deleteExpense: a malformed id is invalid data and reaches no
        repository; otherwise exactly that key is removed. */
    method DeleteExpense(expenseId: Option<string>) returns (r: Status)
      modifies this`expenses, this`calls
      ensures !UsableId(expenseId) ==>
        r == Failed(InvalidData) && expenses == old(expenses) && calls == old(calls)
      ensures UsableId(expenseId) ==>
        && r == Done
        && expenses == old(expenses) - {expenseId.value}
        && calls == old(calls) + [RepoCall.DeleteExpense(expenseId.value)]
    {
      if IsEmpty(expenseId) || !ValidUuid(expenseId.value) {
        return Failed(InvalidData);
      }
      expenses := expenses - {expenseId.value};
      calls := calls + [RepoCall.DeleteExpense(expenseId.value)];
      r := Done;
    }

    /** createExpenseList as written: the list is stored under the fixed
        identifier, which is returned; a list already stored there is
        replaced. */
    method CreateExpenseList(email: string, title: string) returns (listId: string)
      modifies this`lists, this`calls
      ensures listId == DefaultListId
      ensures lists == WithNewList(old(lists), listId, email, title)
      ensures calls == old(calls) + [RepoCall.CreateExpenseList(listId, email, title)]
      ensures old(MembershipInvariant(lists)) ==> MembershipInvariant(lists)
    {
      listId := DefaultListId;
      lists := WithNewList(lists, listId, email, title);
      calls := calls + [RepoCall.CreateExpenseList(listId, email, title)];
    }

    /** createExpenseList with a freshly generated identifier, given as a
        parameter: every list stored before is kept. */
    method CreateExpenseListFresh(email: string, title: string, freshId: string) returns (listId: string)
      requires freshId !in lists
      modifies this`lists, this`calls
      ensures listId == freshId && listId !in old(lists)
      ensures lists.Keys == old(lists).Keys + {listId}
      ensures forall k :: k in old(lists) ==> lists[k] == old(lists)[k]
      ensures lists[listId] == ExpenseItemList(listId, email, title, None)
      ensures calls == old(calls) + [RepoCall.CreateExpenseList(listId, email, title)]
      ensures old(MembershipInvariant(lists)) ==> MembershipInvariant(lists)
    {
      listId := freshId;
      lists := WithNewList(lists, listId, email, title);
      calls := calls + [RepoCall.CreateExpenseList(listId, email, title)];
    }

    /** addExpenseItemToList: the guard ladder decides the outcome; the item
        and the list are read only once both ids are well formed, and the
        list gains the item only when every guard passes. */
    method AddExpenseItemToList(id: Option<string>, expenseId: Option<string>) returns (r: Status)
      modifies this`lists, this`calls
      ensures r.Failed? ==> forall i :: |old(calls)| <= i < |calls| ==> !calls[i].IsWrite()
      ensures r == AddOutcome(expenses, old(lists), id, expenseId)
      ensures lists == if r.Done? then WithItemAppended(old(lists), id.value, expenses[expenseId.value])
                       else old(lists)
      ensures !IdsPassGuards(id, expenseId) ==> calls == old(calls)
      ensures IdsPassGuards(id, expenseId) ==>
        var lookups := [RepoCall.GetExpenseById(expenseId.value), RepoCall.GetExpenseListById(id.value)];
        calls == old(calls) + lookups +
                 (if r.Done? then [RepoCall.AddExpenseItemToList(id.value, expenses[expenseId.value])] else [])
      ensures old(MembershipInvariant(lists)) ==> MembershipInvariant(lists)
    {
      if id.None? {
        return Failed(ItemNotFound);
      }
      if expenseId.None? {
        return Failed(ItemNotFound);
      }
      if IsEmpty(id) || IsEmpty(expenseId) || !ValidUuid(id.value) || !ValidUuid(expenseId.value) {
        return Failed(InvalidData);
      }
      var item := Lookup(expenses, expenseId.value);
      calls := calls + [RepoCall.GetExpenseById(expenseId.value)];
      var list := Lookup(lists, id.value);
      calls := calls + [RepoCall.GetExpenseListById(id.value)];
      if item.None? {
        return Failed(ItemNotFound);
      }
      if list.None? {
        return Failed(ItemNotFound);
      }
      if item.value.email != list.value.email {
        return Failed(ItemNotFound);
      }
      if list.value.expenseItems.Some? && item.value in list.value.expenseItems.value {
        return Failed(ItemNotFound);
      }
      if MembershipInvariant(lists) {
        AddKeepsInvariant(expenses, lists, id, expenseId);
      }
      lists := WithItemAppended(lists, id.value, item.value);
      calls := calls + [RepoCall.AddExpenseItemToList(id.value, item.value)];
      r := Done;
    }

    /** removeExpenseItemToList: the same ladder, except that a non-null item
        sequence must contain the item; on success exactly one removal call
        is made, for that item on that list. */
    method RemoveExpenseItemToList(id: Option<string>, expenseId: Option<string>) returns (r: Status)
      modifies this`lists, this`calls
      ensures r.Failed? ==> forall i :: |old(calls)| <= i < |calls| ==> !calls[i].IsWrite()
      ensures r == RemoveOutcome(expenses, old(lists), id, expenseId)
      ensures lists == if r.Done? then WithItemRemoved(old(lists), id.value, expenses[expenseId.value])
                       else old(lists)
      ensures !IdsPassGuards(id, expenseId) ==> calls == old(calls)
      ensures IdsPassGuards(id, expenseId) ==>
        var lookups := [RepoCall.GetExpenseById(expenseId.value), RepoCall.GetExpenseListById(id.value)];
        calls == old(calls) + lookups +
                 (if r.Done? then [RepoCall.RemoveExpenseItemToList(id.value, expenses[expenseId.value])] else [])
      ensures old(MembershipInvariant(lists)) ==> MembershipInvariant(lists)
    {
      if id.None? {
        return Failed(ItemNotFound);
      }
      if expenseId.None? {
        return Failed(ItemNotFound);
      }
      if IsEmpty(id) || IsEmpty(expenseId) || !ValidUuid(id.value) || !ValidUuid(expenseId.value) {
        return Failed(InvalidData);
      }
      var item := Lookup(expenses, expenseId.value);
      calls := calls + [RepoCall.GetExpenseById(expenseId.value)];
      var list := Lookup(lists, id.value);
      calls := calls + [RepoCall.GetExpenseListById(id.value)];
      if item.None? {
        return Failed(ItemNotFound);
      }
      if list.None? {
        return Failed(ItemNotFound);
      }
      if item.value.email != list.value.email {
        return Failed(ItemNotFound);
      }
      if list.value.expenseItems.Some? && item.value !in list.value.expenseItems.value {
        return Failed(ItemNotFound);
      }
      if MembershipInvariant(lists) {
        RemoveKeepsInvariant(expenses, lists, id, expenseId);
      }
      lists := WithItemRemoved(lists, id.value, item.value);
      calls := calls + [RepoCall.RemoveExpenseItemToList(id.value, item.value)];
      r := Done;
    }

    /** getExpenseListByEmail: a null or empty email is invalid data;
        otherwise the stored lists of that owner, one entry per stored key,
        each with its non-null item sequence sorted by timestamp (see
        WithItemsSortedMeaning), and no write. */
    method GetExpenseListByEmail(email: Option<string>) returns (r: Result<seq<ExpenseItemList>>)
      modifies this`calls
      ensures IsEmpty(email) ==> r == Err(InvalidData) && calls == old(calls)
      ensures !IsEmpty(email) ==>
        r.Ok? && calls == old(calls) + [RepoCall.GetExpenseListsByEmail(email.value)]
      ensures r.Ok? ==>
        exists ks :: && EnumeratesKeys(ks, ListKeysOwnedBy(lists, email.value))
                     && |r.value| == |ks|
                     && forall i :: 0 <= i < |ks| ==> ks[i] in lists && r.value[i] == WithItemsSorted(lists[ks[i]])
    {
      if IsEmpty(email) {
        return Err(InvalidData);
      }
      calls := calls + [RepoCall.GetExpenseListsByEmail(email.value)];
      var owned := ListKeysOwnedBy(lists, email.value);
      var ks, found := CollectValues(lists, owned);
      var sorted := SortListItems(found);
      r := Ok(sorted);
    }
  }
}
