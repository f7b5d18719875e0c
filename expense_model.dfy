/** Entities of the expense service, its input guards, the effect of each
    repository write on the stored records, and the guard ladders of the two
    list-membership operations, with the properties that relate them. */
module ExpenseModel {
  import opened Outcomes

  // ---------------------------------------------------------------------
  // Entities
  // ---------------------------------------------------------------------

  /** The creation/update request: owner, title and amount. The amount is a
      Java Double that the service only passes through; no arithmetic is done
      on it. */
  datatype Expense = Expense(email: string, title: string, amount: real)

  /** A stored expense. The timestamp is kept as its parsed value (the
      instant as an integer key). */
  datatype ExpenseItem = ExpenseItem(id: string, email: string, title: string,
                                     amount: real, expenseDate: int)

  /** A stored expense list. Its item sequence may be null (None), which the
      service treats differently from an empty sequence. */
  datatype ExpenseItemList = ExpenseItemList(id: string, email: string, title: string,
                                             expenseItems: Option<seq<ExpenseItem>>)

  /** One call made by the service into the repository. */
  datatype RepoCall =
    | GetExpenseById(id: string)
    | GetExpensesByEmail(email: string)
    | CreateExpense(item: ExpenseItem)
    | UpdateExpense(id: string, title: string, amount: real)
    | DeleteExpense(id: string)
    | CreateExpenseList(listId: string, email: string, title: string)
    | GetExpenseListById(listId: string)
    | GetExpenseListsByEmail(email: string)
    | AddExpenseItemToList(listId: string, item: ExpenseItem)
    | RemoveExpenseItemToList(listId: string, item: ExpenseItem)
  {
    /** True for the calls that change the repository. */
    predicate IsWrite() {
      CreateExpense? || UpdateExpense? || DeleteExpense? || CreateExpenseList?
      || AddExpenseItemToList? || RemoveExpenseItemToList?
    }
  }

  /** The converter: builds the stored item from a request. The identifier
      and the timestamp it generates are given as parameters. */
  function Convert(draft: Expense, newId: string, date: int): ExpenseItem
  {
    ExpenseItem(newId, draft.email, draft.title, draft.amount, date)
  }

  // ---------------------------------------------------------------------
  // Input guards
  // ---------------------------------------------------------------------

  predicate IsHexDigit(c: char)
  {
    ('0' <= c <= '9') || ('a' <= c <= 'f') || ('A' <= c <= 'F')
  }

  /** Dash positions of the textual UUID form 8-4-4-4-12. */
  predicate IsDashPosition(i: int)
  {
    i == 8 || i == 13 || i == 18 || i == 23
  }

  /** A UUID in the canonical textual form of section 3 of RFC 4122. */
  predicate ValidUuid(s: string)
  {
    |s| == 36 &&
    forall i :: 0 <= i < |s| ==> if IsDashPosition(i) then s[i] == '-' else IsHexDigit(s[i])
  }

  /** StringUtils.isEmpty: null or the empty string. */
  predicate IsEmpty(s: Option<string>)
  {
    s.None? || s.value == ""
  }

  /** The identifier guard: present, non-empty and a syntactically valid UUID. */
  predicate UsableId(id: Option<string>): (u: bool)
    ensures u ==> id.Some? && |id.value| == 36
  {
    !IsEmpty(id) && ValidUuid(id.value)
  }

  /** The identifier that createExpenseList always uses. */
  const DefaultListId: string := "c5156c9f-4306-45b6-9b39-2eeb180a702a"

  /** The identifiers the tests use as bad input are rejected; the constant
      list identifier passes the guard. */
  lemma IdGuardExamples()
    ensures !UsableId(None) && !UsableId(Some("")) && !UsableId(Some("bob"))
    ensures UsableId(Some(DefaultListId))
  {
  }

  // ---------------------------------------------------------------------
  // Reads of the store
  // ---------------------------------------------------------------------

  /** A repository read by key: the record or null. */
  function Lookup<V>(m: map<string, V>, k: string): (r: Option<V>)
    ensures r.Some? <==> k in m
    ensures r.Some? ==> r.value == m[k]
  {
    if k in m then Some(m[k]) else None
  }

  /** The items of a list, with null read as no items. */
  function ItemsOf(list: ExpenseItemList): seq<ExpenseItem>
  {
    if list.expenseItems.Some? then list.expenseItems.value else []
  }

  /** Keys of the stored expenses owned by `email`. */
  function ExpenseKeysOwnedBy(expenses: map<string, ExpenseItem>, email: string): set<string>
  {
    set k | k in expenses && expenses[k].email == email
  }

  /** Keys of the stored lists owned by `email`. */
  function ListKeysOwnedBy(lists: map<string, ExpenseItemList>, email: string): set<string>
  {
    set k | k in lists && lists[k].email == email
  }

  /** `ks` lists every key of `keys` exactly once, and nothing else. */
  ghost predicate EnumeratesKeys(ks: seq<string>, keys: set<string>)
  {
    && |ks| == |keys|
    && (forall k :: k in keys <==> k in ks)
    && (forall i, j :: 0 <= i < j < |ks| ==> ks[i] != ks[j])
  }

  /** `vs` holds, position by position, the records stored under `ks`. */
  ghost predicate ValuesUnder<V>(vs: seq<V>, m: map<string, V>, ks: seq<string>)
  {
    |vs| == |ks| && forall i :: 0 <= i < |ks| ==> ks[i] in m && vs[i] == m[ks[i]]
  }

  /** The repository's answer to a by-owner query: the records under `keys`,
      one entry per key, in an order the repository chooses. The keys are
      returned in the same order as the records. */
  method CollectValues<V>(m: map<string, V>, keys: set<string>) returns (ks: seq<string>, vs: seq<V>)
    requires keys <= m.Keys
    ensures EnumeratesKeys(ks, keys)
    ensures ValuesUnder(vs, m, ks)
  {
    ks, vs := [], [];
    var remaining := keys;
    while remaining != {}
      invariant remaining <= keys
      invariant |ks| + |remaining| == |keys|
      invariant forall k :: k in ks <==> k in keys && k !in remaining
      invariant forall i, j :: 0 <= i < j < |ks| ==> ks[i] != ks[j]
      invariant ValuesUnder(vs, m, ks)
      decreases |remaining|
    {
      var k :| k in remaining;
      ks, vs := ks + [k], vs + [m[k]];
      remaining := remaining - {k};
    }
  }

  // ---------------------------------------------------------------------
  // Repository writes, as effects on the stored records
  // ---------------------------------------------------------------------

  /** updateExpense of the repository: new title and amount for one item. */
  function UpdatedExpenses(expenses: map<string, ExpenseItem>, id: string, title: string, amount: real)
    : (r: map<string, ExpenseItem>)
    requires id in expenses
    ensures r.Keys == expenses.Keys
    ensures r[id].title == title && r[id].amount == amount
    ensures r[id].id == expenses[id].id && r[id].email == expenses[id].email
    ensures r[id].expenseDate == expenses[id].expenseDate
    ensures forall k :: k in expenses && k != id ==> r[k] == expenses[k]
  {
    expenses[id := expenses[id].(title := title, amount := amount)]
  }

  /** createExpenseList of the repository: a new list with no item sequence
      stored under `listId`, replacing any list already there. */
  function WithNewList(lists: map<string, ExpenseItemList>, listId: string, email: string, title: string)
    : map<string, ExpenseItemList>
  {
    lists[listId := ExpenseItemList(listId, email, title, None)]
  }

  /** addExpenseItemToList of the repository: the item is appended to the
      list's items (a null sequence starts out empty). */
  function WithItemAppended(lists: map<string, ExpenseItemList>, listId: string, item: ExpenseItem)
    : map<string, ExpenseItemList>
    requires listId in lists
  {
    lists[listId := lists[listId].(expenseItems := Some(ItemsOf(lists[listId]) + [item]))]
  }

  /** The sequence without the first element equal to `x`. */
  function RemoveFirst(s: seq<ExpenseItem>, x: ExpenseItem): seq<ExpenseItem>
  {
    if s == [] then []
    else if s[0] == x then s[1..]
    else [s[0]] + RemoveFirst(s[1..], x)
  }

  /** removeExpenseItemToList of the repository: the first equal item is
      removed; a null sequence stays null. */
  function WithItemRemoved(lists: map<string, ExpenseItemList>, listId: string, item: ExpenseItem)
    : map<string, ExpenseItemList>
    requires listId in lists
  {
    var list := lists[listId];
    match list.expenseItems
    case None => lists
    case Some(s) => lists[listId := list.(expenseItems := Some(RemoveFirst(s, item)))]
  }

  /** Removing the first occurrence takes exactly one copy of `x` away. */
  lemma {:induction false} RemoveFirstCount(s: seq<ExpenseItem>, x: ExpenseItem)
    ensures multiset(RemoveFirst(s, x)) == multiset(s) - multiset{x}
  {
    if s != [] {
      assert s == [s[0]] + s[1..];
      if s[0] != x {
        RemoveFirstCount(s[1..], x);
      }
    }
  }

  /** Removing an element that was appended to a sequence not holding it
      gives the sequence back. */
  lemma {:induction false} RemoveFirstOfAppended(s: seq<ExpenseItem>, x: ExpenseItem)
    requires x !in s
    ensures RemoveFirst(s + [x], x) == s
  {
    if s == [] {
    } else {
      assert (s + [x])[1..] == s[1..] + [x];
      RemoveFirstOfAppended(s[1..], x);
      assert [s[0]] + s[1..] == s;
    }
  }

  // ---------------------------------------------------------------------
  // Membership invariant: owner match, no duplicates
  // ---------------------------------------------------------------------

  ghost predicate NoDuplicates(s: seq<ExpenseItem>)
  {
    forall x :: multiset(s)[x] <= 1
  }

  /** A list's items all belong to the list's owner and none occurs twice. */
  ghost predicate WellFormedList(list: ExpenseItemList)
  {
    list.expenseItems.Some? ==>
      NoDuplicates(list.expenseItems.value) &&
      forall x :: x in list.expenseItems.value ==> x.email == list.email
  }

  ghost predicate MembershipInvariant(lists: map<string, ExpenseItemList>)
  {
    forall k :: k in lists ==> WellFormedList(lists[k])
  }

  // ---------------------------------------------------------------------
  // Guard ladders of addExpenseItemToList and removeExpenseItemToList
  // ---------------------------------------------------------------------

  /** True when both identifiers get past the null and syntax guards, so that
      the service goes on to read the item and the list. */
  predicate IdsPassGuards(listId: Option<string>, expenseId: Option<string>)
  {
    UsableId(listId) && UsableId(expenseId)
  }

  /** The guards the two membership operations share, in source order: null
      list id, null expense id, empty or malformed id, item absent, list
      absent, owner mismatch. */
  function SharedGuards(expenses: map<string, ExpenseItem>, lists: map<string, ExpenseItemList>,
                        listId: Option<string>, expenseId: Option<string>): Status
  {
    if listId.None? then Failed(ItemNotFound)
    else if expenseId.None? then Failed(ItemNotFound)
    else if IsEmpty(listId) || IsEmpty(expenseId) || !ValidUuid(listId.value) || !ValidUuid(expenseId.value)
    then Failed(InvalidData)
    else if expenseId.value !in expenses then Failed(ItemNotFound)
    else if listId.value !in lists then Failed(ItemNotFound)
    else if expenses[expenseId.value].email != lists[listId.value].email then Failed(ItemNotFound)
    else Done
  }

  /** Outcome of addExpenseItemToList: the shared guards, then the item must
      not already be in a non-null item sequence. */
  function AddOutcome(expenses: map<string, ExpenseItem>, lists: map<string, ExpenseItemList>,
                      listId: Option<string>, expenseId: Option<string>): (r: Status)
    ensures r == Failed(InvalidData) <==> listId.Some? && expenseId.Some? && !IdsPassGuards(listId, expenseId)
    ensures r.Done? ==>
      && IdsPassGuards(listId, expenseId) && expenseId.value in expenses && listId.value in lists
      && expenses[expenseId.value].email == lists[listId.value].email
  {
    var shared := SharedGuards(expenses, lists, listId, expenseId);
    if shared.Failed? then shared
    else
      var items := lists[listId.value].expenseItems;
      if items.Some? && expenses[expenseId.value] in items.value then Failed(ItemNotFound)
      else Done
  }

  /** Outcome of removeExpenseItemToList: the shared guards, then a non-null
      item sequence must contain the item. A null sequence lets it through. */
  function RemoveOutcome(expenses: map<string, ExpenseItem>, lists: map<string, ExpenseItemList>,
                         listId: Option<string>, expenseId: Option<string>): (r: Status)
    ensures r == Failed(InvalidData) <==> listId.Some? && expenseId.Some? && !IdsPassGuards(listId, expenseId)
    ensures r.Done? ==>
      && IdsPassGuards(listId, expenseId) && expenseId.value in expenses && listId.value in lists
      && expenses[expenseId.value].email == lists[listId.value].email
  {
    var shared := SharedGuards(expenses, lists, listId, expenseId);
    if shared.Failed? then shared
    else
      var items := lists[listId.value].expenseItems;
      if items.Some? && expenses[expenseId.value] !in items.value then Failed(ItemNotFound)
      else Done
  }

  /** The guard order of both membership operations: a null id is reported
      as not found before the syntax of the other id is looked at, and a
      malformed id is invalid data whatever the store holds. */
  lemma GuardOrder(expenses: map<string, ExpenseItem>, lists: map<string, ExpenseItemList>,
                   listId: Option<string>, expenseId: Option<string>)
    ensures listId.None? || expenseId.None? ==>
      AddOutcome(expenses, lists, listId, expenseId) == Failed(ItemNotFound) &&
      RemoveOutcome(expenses, lists, listId, expenseId) == Failed(ItemNotFound)
    ensures listId.Some? && expenseId.Some? && !IdsPassGuards(listId, expenseId) ==>
      AddOutcome(expenses, lists, listId, expenseId) == Failed(InvalidData) &&
      RemoveOutcome(expenses, lists, listId, expenseId) == Failed(InvalidData)
    ensures AddOutcome(expenses, lists, listId, expenseId) == Failed(InvalidData) <==>
      listId.Some? && expenseId.Some? && !IdsPassGuards(listId, expenseId)
  {
  }

  /** Once both ids pass the syntax guard, every failure of either
      operation is ItemNotFound, and an owner mismatch is always one. */
  lemma ReferentialFailuresAreNotFound(expenses: map<string, ExpenseItem>, lists: map<string, ExpenseItemList>,
                                       listId: Option<string>, expenseId: Option<string>)
    requires IdsPassGuards(listId, expenseId)
    ensures AddOutcome(expenses, lists, listId, expenseId) != Failed(InvalidData)
    ensures RemoveOutcome(expenses, lists, listId, expenseId) != Failed(InvalidData)
    ensures expenseId.value !in expenses || listId.value !in lists ==>
      AddOutcome(expenses, lists, listId, expenseId) == Failed(ItemNotFound) &&
      RemoveOutcome(expenses, lists, listId, expenseId) == Failed(ItemNotFound)
    ensures expenseId.value in expenses && listId.value in lists &&
            expenses[expenseId.value].email != lists[listId.value].email ==>
      AddOutcome(expenses, lists, listId, expenseId) == Failed(ItemNotFound) &&
      RemoveOutcome(expenses, lists, listId, expenseId) == Failed(ItemNotFound)
  {
  }

  /** A successful add is exactly: valid ids, both records stored, same
      owner, and the item not yet in the list. */
  lemma AddSucceedsExactly(expenses: map<string, ExpenseItem>, lists: map<string, ExpenseItemList>,
                           listId: Option<string>, expenseId: Option<string>)
    ensures AddOutcome(expenses, lists, listId, expenseId) == Done <==>
      IdsPassGuards(listId, expenseId) &&
      expenseId.value in expenses && listId.value in lists &&
      expenses[expenseId.value].email == lists[listId.value].email &&
      expenses[expenseId.value] !in ItemsOf(lists[listId.value])
  {
  }

  /** A successful remove is exactly: valid ids, both records stored, same
      owner, and the item in the list's items unless those are null. */
  lemma RemoveSucceedsExactly(expenses: map<string, ExpenseItem>, lists: map<string, ExpenseItemList>,
                              listId: Option<string>, expenseId: Option<string>)
    ensures RemoveOutcome(expenses, lists, listId, expenseId) == Done <==>
      IdsPassGuards(listId, expenseId) &&
      expenseId.value in expenses && listId.value in lists &&
      expenses[expenseId.value].email == lists[listId.value].email &&
      (lists[listId.value].expenseItems.None? ||
       expenses[expenseId.value] in lists[listId.value].expenseItems.value)
  {
  }

  /** A null item sequence and an empty one differ for removal: with null
      the removal goes ahead, with an empty sequence it is not found. */
  lemma NullAndEmptyItemsDiffer(expenses: map<string, ExpenseItem>, lists: map<string, ExpenseItemList>,
                                listId: Option<string>, expenseId: Option<string>)
    requires SharedGuards(expenses, lists, listId, expenseId) == Done
    ensures lists[listId.value].expenseItems == None ==>
      RemoveOutcome(expenses, lists, listId, expenseId) == Done
    ensures lists[listId.value].expenseItems == Some([]) ==>
      RemoveOutcome(expenses, lists, listId, expenseId) == Failed(ItemNotFound)
  {
  }

  /** After a successful add the item is a member of the list, it has the
      list's owner, no other list changed, and repeating the add fails. */
  lemma AddThenRepeatFails(expenses: map<string, ExpenseItem>, lists: map<string, ExpenseItemList>,
                           listId: Option<string>, expenseId: Option<string>)
    requires AddOutcome(expenses, lists, listId, expenseId) == Done
    ensures var after := WithItemAppended(lists, listId.value, expenses[expenseId.value]);
      && after.Keys == lists.Keys
      && expenses[expenseId.value] in ItemsOf(after[listId.value])
      && expenses[expenseId.value].email == after[listId.value].email
      && (forall k :: k in lists && k != listId.value ==> after[k] == lists[k])
      && AddOutcome(expenses, after, listId, expenseId) == Failed(ItemNotFound)
  {
  }

  /** A successful add keeps the membership invariant. */
  lemma AddKeepsInvariant(expenses: map<string, ExpenseItem>, lists: map<string, ExpenseItemList>,
                          listId: Option<string>, expenseId: Option<string>)
    requires MembershipInvariant(lists)
    requires AddOutcome(expenses, lists, listId, expenseId) == Done
    ensures MembershipInvariant(WithItemAppended(lists, listId.value, expenses[expenseId.value]))
  {
  }

  /** A successful remove keeps the membership invariant. */
  lemma RemoveKeepsInvariant(expenses: map<string, ExpenseItem>, lists: map<string, ExpenseItemList>,
                             listId: Option<string>, expenseId: Option<string>)
    requires MembershipInvariant(lists)
    requires RemoveOutcome(expenses, lists, listId, expenseId) == Done
    ensures MembershipInvariant(WithItemRemoved(lists, listId.value, expenses[expenseId.value]))
  {
    var item := expenses[expenseId.value];
    var list := lists[listId.value];
    if list.expenseItems.Some? {
      var s := list.expenseItems.value;
      RemoveFirstCount(s, item);
      var after := WithItemRemoved(lists, listId.value, item);
      assert after[listId.value].expenseItems == Some(RemoveFirst(s, item));
      forall x | x in RemoveFirst(s, item)
        ensures x.email == list.email
      {
        assert x in multiset(RemoveFirst(s, item));
      }
    }
  }

  /** Under the invariant, a successful removal from a non-null sequence
      takes the item out, so repeating the removal fails. */
  lemma RemoveThenRepeatFails(expenses: map<string, ExpenseItem>, lists: map<string, ExpenseItemList>,
                              listId: Option<string>, expenseId: Option<string>)
    requires MembershipInvariant(lists)
    requires RemoveOutcome(expenses, lists, listId, expenseId) == Done
    requires lists[listId.value].expenseItems.Some?
    ensures var after := WithItemRemoved(lists, listId.value, expenses[expenseId.value]);
      && expenses[expenseId.value] !in ItemsOf(after[listId.value])
      && RemoveOutcome(expenses, after, listId, expenseId) == Failed(ItemNotFound)
  {
    var item := expenses[expenseId.value];
    var s := lists[listId.value].expenseItems.value;
    assert WellFormedList(lists[listId.value]);
    RemoveFirstCount(s, item);
    assert multiset(RemoveFirst(s, item))[item] == 0;
  }

  /** Removing an item right after adding it succeeds and gives the list
      back its previous items (a null sequence comes back empty); every
      other list is untouched. */
  lemma RemoveUndoesAdd(expenses: map<string, ExpenseItem>, lists: map<string, ExpenseItemList>,
                        listId: Option<string>, expenseId: Option<string>)
    requires AddOutcome(expenses, lists, listId, expenseId) == Done
    ensures var item := expenses[expenseId.value];
      var added := WithItemAppended(lists, listId.value, item);
      && RemoveOutcome(expenses, added, listId, expenseId) == Done
      && WithItemRemoved(added, listId.value, item)
         == lists[listId.value := lists[listId.value].(expenseItems := Some(ItemsOf(lists[listId.value])))]
  {
    var item := expenses[expenseId.value];
    RemoveFirstOfAppended(ItemsOf(lists[listId.value]), item);
  }

  /** As written, createExpenseList always stores under the same identifier,
      so a second list replaces the first one. */
  lemma ConstantListIdOverwrites(lists: map<string, ExpenseItemList>,
                                 email1: string, title1: string, email2: string, title2: string)
    requires email1 != email2 || title1 != title2
    ensures var twice := WithNewList(WithNewList(lists, DefaultListId, email1, title1),
                                     DefaultListId, email2, title2);
      && twice.Keys == lists.Keys + {DefaultListId}
      && twice[DefaultListId] == ExpenseItemList(DefaultListId, email2, title2, None)
      && twice[DefaultListId] != ExpenseItemList(DefaultListId, email1, title1, None)
  {
  }
}
