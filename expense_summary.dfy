/**
 * The expense summary: the bill total, what each participant paid and owes,
 * and the two chart lists of participants with a positive paid or owed total.
 */
module ExpenseSummary {
  import opened BillTypes
  import opened Balances

  /** One slice of a chart: a participant's name and a positive total. */
  datatype ChartRow = ChartRow(name: string, value: Cents)

  datatype Summary = Summary(
    totalAmount: Cents,
    paidByData: map<Id, Cents>,
    owedByData: map<Id, Cents>,
    paidByChartData: seq<ChartRow>,
    owedByChartData: seq<ChartRow>)

  /** A record entry read the way the summary reads it: an absent key counts 0. */
  function Get0(data: map<Id, Cents>, id: Id): Cents
  {
    if id in data then data[id] else 0
  }

  /** The payers of the expenses, in expense order, repetitions included. */
  function Payers(expenses: seq<Expense>): (r: seq<Id>)
    ensures |r| == |expenses|
    ensures forall i :: 0 <= i < |expenses| ==> r[i] == expenses[i].paidBy
  {
    seq(|expenses|, i requires 0 <= i < |expenses| => expenses[i].paidBy)
  }

  /** The split members of one expense, in split order. */
  function SplitMembers(splits: seq<ExpenseSplit>): (r: seq<Id>)
    ensures |r| == |splits|
    ensures forall i :: 0 <= i < |splits| ==> r[i] == splits[i].participantId
  {
    seq(|splits|, i requires 0 <= i < |splits| => splits[i].participantId)
  }

  /** The split members of all expenses, in the order the owed totals meet them. */
  function SplitMembersOf(expenses: seq<Expense>): seq<Id>
  {
    if expenses == [] then []
    else SplitMembersOf(expenses[..|expenses| - 1]) + SplitMembers(expenses[|expenses| - 1].splits)
  }

  /** Every split member of every expense is listed. */
  lemma {:induction false} SplitMembersOfListsAll(expenses: seq<Expense>)
    ensures forall e, s :: e in expenses && s in e.splits ==> s.participantId in SplitMembersOf(expenses)
  {
    if expenses != [] {
      var init, last := expenses[..|expenses| - 1], expenses[|expenses| - 1];
      SplitMembersOfListsAll(init);
      forall e, s | e in expenses && s in e.splits ensures s.participantId in SplitMembersOf(expenses) {
        var i :| 0 <= i < |expenses| && expenses[i] == e;
        if i < |expenses| - 1 {
          assert e in init;
        } else {
          var k :| 0 <= k < |e.splits| && e.splits[k] == s;
          assert SplitMembers(last.splits)[k] == s.participantId;
        }
      }
    }
  }

  /**
   * paidByData: the expense amounts accumulated per payer, a key for each
   * payer met (the empty payer included).
   */
  method PaidByData(expenses: seq<Expense>) returns (paid: map<Id, Cents>)
    ensures forall id :: id in paid <==> id in Payers(expenses)
    ensures forall id :: Get0(paid, id) == Paid(id, expenses)
  {
    paid := map[];
    for j := 0 to |expenses|
      invariant forall id :: id in paid <==> id in Payers(expenses[..j])
      invariant forall id :: Get0(paid, id) == Paid(id, expenses[..j])
    {
      var e := expenses[j];
      assert expenses[..j + 1][..j] == expenses[..j];
      assert Payers(expenses[..j + 1]) == Payers(expenses[..j]) + [e.paidBy];
      if e.paidBy !in paid {
        paid := paid[e.paidBy := 0];
      }
      paid := paid[e.paidBy := paid[e.paidBy] + e.amount];
    }
    assert expenses[..|expenses|] == expenses;
  }

  /**
   * owedByData: the split amounts accumulated per split member, a key for
   * each member met.
   */
  method OwedByData(expenses: seq<Expense>) returns (owed: map<Id, Cents>)
    ensures forall id :: id in owed <==> id in SplitMembersOf(expenses)
    ensures forall id :: Get0(owed, id) == Owed(id, expenses)
  {
    owed := map[];
    for j := 0 to |expenses|
      invariant forall id :: id in owed <==> id in SplitMembersOf(expenses[..j])
      invariant forall id :: Get0(owed, id) == Owed(id, expenses[..j])
    {
      var e := expenses[j];
      assert expenses[..j + 1][..j] == expenses[..j];
      for k := 0 to |e.splits|
        invariant forall id :: id in owed <==> id in SplitMembersOf(expenses[..j]) + SplitMembers(e.splits[..k])
        invariant forall id :: Get0(owed, id) == Owed(id, expenses[..j]) + OwedIn(id, e.splits[..k])
      {
        var split := e.splits[k];
        assert e.splits[..k + 1][..k] == e.splits[..k];
        assert SplitMembers(e.splits[..k + 1]) == SplitMembers(e.splits[..k]) + [split.participantId];
        if split.participantId !in owed {
          owed := owed[split.participantId := 0];
        }
        owed := owed[split.participantId := owed[split.participantId] + split.amount];
      }
      assert e.splits[..|e.splits|] == e.splits;
    }
    assert expenses[..|expenses|] == expenses;
  }

  /** The chart list: the participants whose total is positive, in participant order, with that total. */
  function ChartRows(participants: seq<Participant>, data: map<Id, Cents>): (rows: seq<ChartRow>)
    ensures |rows| <= |participants|
  {
    if participants == [] then []
    else
      var p := participants[0];
      var rest := ChartRows(participants[1..], data);
      if Get0(data, p.id) > 0 then [ChartRow(p.name, Get0(data, p.id))] + rest else rest
  }

  /**
   * The rows are exactly those of the participants with a positive total:
   * every row is such a participant's, and every such participant has its row.
   */
  lemma {:induction false} ChartRowsMembers(participants: seq<Participant>, data: map<Id, Cents>)
    ensures forall row :: row in ChartRows(participants, data) ==>
      row.value > 0 && exists p :: p in participants && row == ChartRow(p.name, Get0(data, p.id))
    ensures forall p :: p in participants && Get0(data, p.id) > 0 ==> ChartRow(p.name, Get0(data, p.id)) in ChartRows(participants, data)
  {
    if participants != [] {
      ChartRowsMembers(participants[1..], data);
      assert forall q :: q in participants <==> q == participants[0] || q in participants[1..];
    }
  }

  /** Rows keep participant order: a participant added last contributes its row, if any, last. */
  lemma {:induction false} ChartRowsAppend(participants: seq<Participant>, p: Participant, data: map<Id, Cents>)
    ensures ChartRows(participants + [p], data) ==
      ChartRows(participants, data) + (if Get0(data, p.id) > 0 then [ChartRow(p.name, Get0(data, p.id))] else [])
  {
    if participants != [] {
      assert (participants + [p])[1..] == participants[1..] + [p];
      ChartRowsAppend(participants[1..], p, data);
    } else {
      assert [p][1..] == [];
    }
  }

  /**
   * The summary of a bill, or None (the placeholder) without participants
   * or without expenses.
   */
  method Summarize(participants: seq<Participant>, expenses: seq<Expense>) returns (r: Option<Summary>)
    ensures r.None? <==> participants == [] || expenses == []
    ensures r.Some? ==>
      && r.value.totalAmount == TotalExpenses(expenses)
      && (forall id :: Get0(r.value.paidByData, id) == Paid(id, expenses))
      && (forall id :: Get0(r.value.owedByData, id) == Owed(id, expenses))
      && (forall id :: Get0(r.value.paidByData, id) - Get0(r.value.owedByData, id) == Balance(id, expenses))
      && r.value.paidByChartData == ChartRows(participants, r.value.paidByData)
      && r.value.owedByChartData == ChartRows(participants, r.value.owedByData)
  {
    if |participants| == 0 || |expenses| == 0 {
      return None;
    }
    var paid := PaidByData(expenses);
    var owed := OwedByData(expenses);
    r := Some(Summary(TotalExpenses(expenses), paid, owed, ChartRows(participants, paid), ChartRows(participants, owed)));
  }

  /** The total equals the sum of the paid totals over the payers, each counted once. */
  lemma TotalEqualsPaidSum(expenses: seq<Expense>)
    ensures SumOver(Distinct(Payers(expenses)), id => Paid(id, expenses)) == TotalExpenses(expenses)
  {
    var keys := Distinct(Payers(expenses));
    forall e | e in expenses ensures e.paidBy in keys {
      var i :| 0 <= i < |expenses| && expenses[i] == e;
      assert Payers(expenses)[i] == e.paidBy;
    }
    PaidSumIsTotal(keys, expenses);
  }

  /** When every expense's splits add up to its amount, the owed totals also add up to the bill total. */
  lemma TotalEqualsOwedSum(expenses: seq<Expense>)
    requires forall e :: e in expenses ==> SplitsTotal(e.splits) == e.amount
    ensures SumOver(Distinct(SplitMembersOf(expenses)), id => Owed(id, expenses)) == TotalExpenses(expenses)
  {
    SplitMembersOfListsAll(expenses);
    OwedSumIsTotal(Distinct(SplitMembersOf(expenses)), expenses);
  }
}
