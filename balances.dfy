/**
 * The balance calculator and the expense total: what each participant paid
 * minus what each owes, over the whole list of expenses.
 */
module Balances {
  import opened BillTypes

  /** What `id` paid: the amounts of the expenses whose payer is `id`. */
  function Paid(id: Id, expenses: seq<Expense>): Cents
  {
    if expenses == [] then 0
    else
      var e := expenses[|expenses| - 1];
      Paid(id, expenses[..|expenses| - 1]) + (if e.paidBy == id then e.amount else 0)
  }

  /** What `id` owes within one expense: the sum of its split amounts there. */
  function OwedIn(id: Id, splits: seq<ExpenseSplit>): Cents
  {
    if splits == [] then 0
    else
      var s := splits[|splits| - 1];
      OwedIn(id, splits[..|splits| - 1]) + (if s.participantId == id then s.amount else 0)
  }

  /** What `id` owes over all expenses. */
  function Owed(id: Id, expenses: seq<Expense>): Cents
  {
    if expenses == [] then 0
    else Owed(id, expenses[..|expenses| - 1]) + OwedIn(id, expenses[|expenses| - 1].splits)
  }

  /** Net position: positive means the group owes `id` money, negative that `id` owes the group. */
  function Balance(id: Id, expenses: seq<Expense>): Cents
  {
    Paid(id, expenses) - Owed(id, expenses)
  }

  /** Every expense has a participant as payer, split members that are participants, and splits adding up to its amount. */
  predicate WellFormedBill(participants: seq<Participant>, expenses: seq<Expense>)
  {
    forall e :: e in expenses ==>
      && e.paidBy in ParticipantIds(participants)
      && (forall s :: s in e.splits ==> s.participantId in ParticipantIds(participants))
      && SplitsTotal(e.splits) == e.amount
  }

  /**
   * calculateBalances: one entry per participant id (inactive participants
   * included), holding what it paid minus what it owes. Contributions to an
   * id that is not a participant (an empty payer, say) are dropped.
   */
  method CalculateBalances(participants: seq<Participant>, expenses: seq<Expense>) returns (balances: map<Id, Cents>)
    ensures balances.Keys == set p | p in participants :: p.id
    ensures forall id :: id in balances ==> balances[id] == Balance(id, expenses)
  {
    balances := map[];
    for i := 0 to |participants|
      invariant balances.Keys == set p | p in participants[..i] :: p.id
      invariant forall id :: id in balances ==> balances[id] == 0
    {
      assert participants[..i + 1] == participants[..i] + [participants[i]];
      balances := balances[participants[i].id := 0];
    }
    assert participants[..|participants|] == participants;
    ghost var keys := balances.Keys;
    for j := 0 to |expenses|
      invariant balances.Keys == keys
      invariant forall id :: id in balances ==> balances[id] == Balance(id, expenses[..j])
    {
      var e := expenses[j];
      assert expenses[..j + 1][..j] == expenses[..j];
      if e.paidBy in balances {
        balances := balances[e.paidBy := balances[e.paidBy] + e.amount];
      }
      for k := 0 to |e.splits|
        invariant balances.Keys == keys
        invariant forall id :: id in balances ==>
          balances[id] == Paid(id, expenses[..j + 1]) - Owed(id, expenses[..j]) - OwedIn(id, e.splits[..k])
      {
        assert e.splits[..k + 1][..k] == e.splits[..k];
        var split := e.splits[k];
        if split.participantId in balances {
          balances := balances[split.participantId := balances[split.participantId] - split.amount];
        }
      }
      assert e.splits[..|e.splits|] == e.splits;
    }
    assert expenses[..|expenses|] == expenses;
  }

  /** calculateTotalExpenses: the expense amounts summed left to right, 0 for no expenses. */
  function TotalExpenses(expenses: seq<Expense>): Cents
  {
    if expenses == [] then 0 else TotalExpenses(expenses[..|expenses| - 1]) + expenses[|expenses| - 1].amount
  }

  /** The total of two runs of expenses is the sum of their totals, whatever their order of entry. */
  lemma {:induction false} TotalExpensesConcat(a: seq<Expense>, b: seq<Expense>)
    ensures TotalExpenses(a + b) == TotalExpenses(a) + TotalExpenses(b)
  {
    if b != [] {
      var init := b[..|b| - 1];
      assert (a + b)[..|a + b| - 1] == a + init;
      TotalExpensesConcat(a, init);
    } else {
      assert a + b == a;
    }
  }

  /** A payer that pays nothing in `expenses` is credited nothing. */
  lemma {:induction false} PaidByNonPayer(id: Id, expenses: seq<Expense>)
    requires forall e :: e in expenses ==> e.paidBy != id
    ensures Paid(id, expenses) == 0
  {
    if expenses != [] {
      var init := expenses[..|expenses| - 1];
      assert forall e :: e in init ==> e in expenses;
      PaidByNonPayer(id, init);
    }
  }

  /** Summed over ids that include every payer exactly once, the paid amounts give the total. */
  lemma {:induction false} PaidSumIsTotal(ids: seq<Id>, expenses: seq<Expense>)
    requires NoDuplicates(ids)
    requires forall e :: e in expenses ==> e.paidBy in ids
    ensures SumOver(ids, id => Paid(id, expenses)) == TotalExpenses(expenses)
  {
    if expenses == [] {
      SumOverZero(ids, id => Paid(id, expenses));
    } else {
      var init := expenses[..|expenses| - 1];
      var e := expenses[|expenses| - 1];
      assert forall x :: x in init ==> x in expenses;
      PaidSumIsTotal(ids, init);
      SumOverSingle(ids, id => if id == e.paidBy then e.amount else 0, e.paidBy, e.amount);
      SumOverAdd(ids, id => Paid(id, init), id => if id == e.paidBy then e.amount else 0, id => Paid(id, expenses));
    }
  }

  /** Summed over ids that include every split member exactly once, the owed amounts of one expense give its split total. */
  lemma {:induction false} OwedInSumIsSplitsTotal(ids: seq<Id>, splits: seq<ExpenseSplit>)
    requires NoDuplicates(ids)
    requires forall s :: s in splits ==> s.participantId in ids
    ensures SumOver(ids, id => OwedIn(id, splits)) == SplitsTotal(splits)
  {
    if splits == [] {
      SumOverZero(ids, id => OwedIn(id, splits));
    } else {
      var init := splits[..|splits| - 1];
      var s := splits[|splits| - 1];
      assert forall x :: x in init ==> x in splits;
      OwedInSumIsSplitsTotal(ids, init);
      SumOverSingle(ids, id => if id == s.participantId then s.amount else 0, s.participantId, s.amount);
      SumOverAdd(ids, id => OwedIn(id, init), id => if id == s.participantId then s.amount else 0, id => OwedIn(id, splits));
    }
  }

  /** Summed over all participants, what is owed equals the total when every expense's splits add up to its amount. */
  lemma {:induction false} OwedSumIsTotal(ids: seq<Id>, expenses: seq<Expense>)
    requires NoDuplicates(ids)
    requires forall e :: e in expenses ==> (forall s :: s in e.splits ==> s.participantId in ids) && SplitsTotal(e.splits) == e.amount
    ensures SumOver(ids, id => Owed(id, expenses)) == TotalExpenses(expenses)
  {
    if expenses == [] {
      SumOverZero(ids, id => Owed(id, expenses));
    } else {
      var init := expenses[..|expenses| - 1];
      var e := expenses[|expenses| - 1];
      assert forall x :: x in init ==> x in expenses;
      OwedSumIsTotal(ids, init);
      OwedInSumIsSplitsTotal(ids, e.splits);
      SumOverAdd(ids, id => Owed(id, init), id => OwedIn(id, e.splits), id => Owed(id, expenses));
    }
  }

  /**
   * Zero-sum: on a well-formed bill the balances of all participants add up
   * to exactly 0 cents.
   */
  lemma BalancesSumToZero(participants: seq<Participant>, expenses: seq<Expense>)
    requires WellFormedBill(participants, expenses)
    ensures SumOver(Ids(participants), id => Balance(id, expenses)) == 0
  {
    var ids := Ids(participants);
    PaidSumIsTotal(ids, expenses);
    OwedSumIsTotal(ids, expenses);
    SumOverAdd(ids, id => Paid(id, expenses), id => -Owed(id, expenses), id => Balance(id, expenses));
    NegatedSum(ids, id => Owed(id, expenses), id => -Owed(id, expenses));
  }

  lemma {:induction false} NegatedSum(ids: seq<Id>, f: Id -> int, g: Id -> int)
    requires forall x :: g(x) == -f(x)
    ensures SumOver(ids, g) == -SumOver(ids, f)
  {
    if ids != [] {
      NegatedSum(ids[..|ids| - 1], f, g);
    }
  }
}
