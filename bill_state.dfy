/**
 * The bill's state and its transitions: participants and expenses are added
 * at the end and removed by id, a participant still referenced by an
 * expense cannot be removed, and a confirmed reset starts a new bill.
 */
module BillState {
  import opened BillTypes
  import opened Balances

  /** The four views of the bill. */
  datatype Tab = ParticipantsTab | ExpensesTab | SummaryTab | ResultsTab

  const NewBillTitle: string := "New Bill"

  /** `isUsedInExpenses`: some expense is paid by `id` or has a split for `id`. */
  predicate IsUsedInExpenses(expenses: seq<Expense>, id: Id)
  {
    exists e :: e in expenses && (e.paidBy == id || exists s :: s in e.splits && s.participantId == id)
  }

  /** `participants.filter(p => p.id !== id)`. */
  function WithoutParticipant(participants: seq<Participant>, id: Id): (r: seq<Participant>)
    ensures forall p :: p in r <==> p in participants && p.id != id
    ensures |r| <= |participants|
  {
    if participants == [] then []
    else
      var rest := WithoutParticipant(participants[1..], id);
      assert forall p :: p in participants <==> p == participants[0] || p in participants[1..];
      if participants[0].id != id then [participants[0]] + rest else rest
  }

  /** `expenses.filter(e => e.id !== id)`. */
  function WithoutExpense(expenses: seq<Expense>, id: Id): (r: seq<Expense>)
    ensures forall e :: e in r <==> e in expenses && e.id != id
    ensures |r| <= |expenses|
  {
    if expenses == [] then []
    else
      var rest := WithoutExpense(expenses[1..], id);
      assert forall e :: e in expenses <==> e == expenses[0] || e in expenses[1..];
      if expenses[0].id != id then [expenses[0]] + rest else rest
  }

  /** Filtering out an id nobody has changes nothing. */
  lemma {:induction false} WithoutAbsentParticipant(participants: seq<Participant>, id: Id)
    requires forall p :: p in participants ==> p.id != id
    ensures WithoutParticipant(participants, id) == participants
  {
    if participants != [] {
      assert forall p :: p in participants[1..] ==> p in participants;
      WithoutAbsentParticipant(participants[1..], id);
      assert participants == [participants[0]] + participants[1..];
    }
  }

  /** Filtering by participant id commutes with appending: the kept participants stay in their order, each as often as before. */
  lemma {:induction false} WithoutParticipantAppend(participants: seq<Participant>, p: Participant, id: Id)
    ensures WithoutParticipant(participants + [p], id) == WithoutParticipant(participants, id) + (if p.id != id then [p] else [])
  {
    if participants != [] {
      assert (participants + [p])[1..] == participants[1..] + [p];
      WithoutParticipantAppend(participants[1..], p, id);
    } else {
      assert [p][1..] == [];
    }
  }

  /** Filtering by expense id commutes with appending: the kept expenses stay in their order. */
  lemma {:induction false} WithoutExpenseAppend(expenses: seq<Expense>, e: Expense, id: Id)
    ensures WithoutExpense(expenses + [e], id) == WithoutExpense(expenses, id) + (if e.id != id then [e] else [])
  {
    if expenses != [] {
      assert (expenses + [e])[1..] == expenses[1..] + [e];
      WithoutExpenseAppend(expenses[1..], e, id);
    } else {
      assert [e][1..] == [];
    }
  }

  /** The references of one expense: its payer is a participant (or none was chosen) and so is every split member. */
  predicate ExpenseReferencesValid(participants: seq<Participant>, e: Expense)
  {
    && (e.paidBy == "" || e.paidBy in ParticipantIds(participants))
    && forall s :: s in e.splits ==> s.participantId in ParticipantIds(participants)
  }

  /** Referential integrity: every expense refers only to existing participants. */
  predicate ReferencesValid(participants: seq<Participant>, expenses: seq<Expense>)
  {
    forall e :: e in expenses ==> ExpenseReferencesValid(participants, e)
  }

  /** Removing a participant that no expense uses keeps every reference valid. */
  lemma RemovalKeepsReferencesValid(participants: seq<Participant>, expenses: seq<Expense>, id: Id)
    requires ReferencesValid(participants, expenses)
    requires !IsUsedInExpenses(expenses, id)
    ensures ReferencesValid(WithoutParticipant(participants, id), expenses)
  {
    var ps := WithoutParticipant(participants, id);
    forall e, x | e in expenses && x in ParticipantIds(participants) && x != id
      ensures x in ParticipantIds(ps)
    {
      ParticipantIdsMembership(participants, x);
      var p :| p in participants && p.id == x;
      ParticipantIdsMembership(ps, x);
    }
    forall e | e in expenses ensures ExpenseReferencesValid(ps, e) {
      assert e.paidBy != id;
      forall s | s in e.splits ensures s.participantId != id {
      }
    }
  }

  /** The same for a well-formed bill: removing an unused participant keeps it well formed. */
  lemma RemovalKeepsWellFormed(participants: seq<Participant>, expenses: seq<Expense>, id: Id)
    requires WellFormedBill(participants, expenses)
    requires !IsUsedInExpenses(expenses, id)
    ensures WellFormedBill(WithoutParticipant(participants, id), expenses)
  {
    var ps := WithoutParticipant(participants, id);
    forall x | x in ParticipantIds(participants) && x != id
      ensures x in ParticipantIds(ps)
    {
      ParticipantIdsMembership(participants, x);
      var p :| p in participants && p.id == x;
      ParticipantIdsMembership(ps, x);
    }
    forall e | e in expenses
      ensures e.paidBy in ParticipantIds(ps)
      ensures forall s :: s in e.splits ==> s.participantId in ParticipantIds(ps)
    {
      assert e.paidBy != id;
      forall s | s in e.splits ensures s.participantId != id {
      }
    }
  }

  /** Adding a participant keeps every reference valid. */
  lemma AddingParticipantKeepsReferencesValid(participants: seq<Participant>, expenses: seq<Expense>, p: Participant)
    requires ReferencesValid(participants, expenses)
    ensures ReferencesValid(participants + [p], expenses)
  {
    assert ParticipantIds(participants + [p]) == ParticipantIds(participants) + [p.id];
  }

  /** The result of a reset request. */
  datatype ResetOutcome = NothingToReset | Declined | Reset

  /** The state behind the bill screens. */
  class Bill {
    var billTitle: string
    var billDate: string
    var participants: seq<Participant>
    var expenses: seq<Expense>
    var activeTab: Tab

    /** A fresh bill dated `today` (the clock is read by the caller). */
    constructor(today: string)
      ensures billTitle == NewBillTitle && billDate == today
      ensures participants == [] && expenses == [] && activeTab == ParticipantsTab
      ensures Valid()
    {
      billTitle := NewBillTitle;
      billDate := today;
      participants := [];
      expenses := [];
      activeTab := ParticipantsTab;
    }

    predicate Valid()
      reads this
    {
      ReferencesValid(participants, expenses)
    }

    /** handleAddParticipant: the participant is appended; nothing else changes. */
    method AddParticipant(p: Participant)
      modifies this
      ensures participants == old(participants) + [p]
      ensures expenses == old(expenses) && billTitle == old(billTitle) && billDate == old(billDate) && activeTab == old(activeTab)
      ensures old(Valid()) ==> Valid()
    {
      if Valid() {
        AddingParticipantKeepsReferencesValid(participants, expenses, p);
      }
      participants := participants + [p];
    }

    /**
     * handleRemoveParticipant: refused, changing nothing, while an expense
     * uses the id; otherwise every participant with that id is dropped.
     */
    method RemoveParticipant(id: Id) returns (removed: bool)
      modifies this
      ensures removed <==> !IsUsedInExpenses(old(expenses), id)
      ensures participants == if removed then WithoutParticipant(old(participants), id) else old(participants)
      ensures expenses == old(expenses) && billTitle == old(billTitle) && billDate == old(billDate) && activeTab == old(activeTab)
      ensures old(Valid()) ==> Valid()
    {
      if IsUsedInExpenses(expenses, id) {
        return false;
      }
      if Valid() {
        RemovalKeepsReferencesValid(participants, expenses, id);
      }
      participants := WithoutParticipant(participants, id);
      removed := true;
    }

    /** handleAddExpense: the expense is appended and the expenses tab shown. */
    method AddExpense(e: Expense)
      modifies this
      ensures expenses == old(expenses) + [e] && activeTab == ExpensesTab
      ensures participants == old(participants) && billTitle == old(billTitle) && billDate == old(billDate)
      ensures old(Valid()) && ExpenseReferencesValid(participants, e) ==> Valid()
    {
      expenses := expenses + [e];
      activeTab := ExpensesTab;
    }

    /** handleRemoveExpense: every expense with that id is dropped, the rest keep their order. */
    method RemoveExpense(id: Id)
      modifies this
      ensures expenses == WithoutExpense(old(expenses), id)
      ensures participants == old(participants) && billTitle == old(billTitle) && billDate == old(billDate) && activeTab == old(activeTab)
      ensures old(Valid()) ==> Valid()
    {
      expenses := WithoutExpense(expenses, id);
    }

    /**
     * handleResetBill: with nothing on the bill, or when the user does not
     * confirm, nothing changes; a confirmed reset empties both lists, restores
     * the title, dates the bill `today` and shows the participants tab.
     */
    method ResetBill(confirmed: bool, today: string) returns (outcome: ResetOutcome)
      modifies this
      ensures outcome == if old(participants) == [] && old(expenses) == [] then NothingToReset
                         else if confirmed then Reset else Declined
      ensures outcome == Reset ==>
        participants == [] && expenses == [] && billTitle == NewBillTitle && billDate == today && activeTab == ParticipantsTab
      ensures outcome != Reset ==>
        participants == old(participants) && expenses == old(expenses) && billTitle == old(billTitle)
        && billDate == old(billDate) && activeTab == old(activeTab)
      ensures old(Valid()) ==> Valid()
    {
      if |participants| > 0 || |expenses| > 0 {
        if confirmed {
          participants := [];
          expenses := [];
          billTitle := NewBillTitle;
          billDate := today;
          activeTab := ParticipantsTab;
          return Reset;
        }
        return Declined;
      }
      return NothingToReset;
    }
  }
}
