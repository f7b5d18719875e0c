/** Clients of the service: sequences of calls and what their contracts let
    a caller conclude about the outcome. */
module Scenarios {
  import opened Outcomes
  import opened ExpenseModel
  import opened Service

  /** createExpense followed by getExpenseById with the returned id gives
      back an item with the request's owner, title and amount. */
  method CreateThenGet(svc: ExpenseService, draft: Expense, newId: string, date: int)
    returns (got: Result<Option<ExpenseItem>>)
    requires ValidUuid(newId)
    modifies svc
    ensures got.Ok? && got.value.Some?
    ensures got.value.value.email == draft.email
    ensures got.value.value.title == draft.title && got.value.value.amount == draft.amount
  {
    var id := svc.CreateExpense(draft, newId, date);
    got := svc.GetExpenseById(Some(id));
  }

  /** The same item added to the same list twice: the second call always
      fails, with ItemNotFound when the first one succeeded, and the list
      holds the item once. */
  method AddTwice(svc: ExpenseService, listId: Option<string>, expenseId: Option<string>)
    returns (first: Status, second: Status)
    modifies svc
    ensures first == AddOutcome(old(svc.expenses), old(svc.lists), listId, expenseId)
    ensures second.Failed?
    ensures first.Done? ==>
      && second == Failed(ItemNotFound)
      && svc.lists == WithItemAppended(old(svc.lists), listId.value, old(svc.expenses)[expenseId.value])
  {
    first := svc.AddExpenseItemToList(listId, expenseId);
    if first.Done? {
      AddThenRepeatFails(old(svc.expenses), old(svc.lists), listId, expenseId);
    }
    second := svc.AddExpenseItemToList(listId, expenseId);
  }

  /** An item added to a list and then removed from it: the removal
      succeeds and the list's items are what they were before the add (a
      null sequence comes back empty). */
  method AddThenRemove(svc: ExpenseService, listId: Option<string>, expenseId: Option<string>)
    returns (added: Status, removed: Status)
    modifies svc
    ensures added == AddOutcome(old(svc.expenses), old(svc.lists), listId, expenseId)
    ensures added.Done? ==>
      && removed == Done
      && svc.lists == old(svc.lists)[listId.value :=
           old(svc.lists)[listId.value].(expenseItems := Some(ItemsOf(old(svc.lists)[listId.value])))]
  {
    added := svc.AddExpenseItemToList(listId, expenseId);
    if added.Done? {
      RemoveUndoesAdd(old(svc.expenses), old(svc.lists), listId, expenseId);
    }
    removed := svc.RemoveExpenseItemToList(listId, expenseId);
  }
}
