/**
 * The settlement planner: split the balances into creditors (sorted by
 * balance, largest first) and debtors (most negative first), then repeatedly
 * let the head debtor pay the head creditor the smaller of the two
 * magnitudes, dropping whoever is settled and updating the other head in place.
 */
module Settlements {
  import opened BillTypes
  import opened Balances

  /** An id with its balance, as produced by `Object.entries(balances)`. */
  type Entry = (Id, Cents)

  predicate DistinctKeys(s: seq<Entry>)
  {
    forall i, j :: 0 <= i < j < |s| ==> s[i].0 != s[j].0
  }

  predicate HasKey(s: seq<Entry>, id: Id)
  {
    exists i :: 0 <= i < |s| && s[i].0 == id
  }

  predicate AllPositive(s: seq<Entry>)
  {
    forall i :: 0 <= i < |s| ==> s[i].1 > 0
  }

  predicate AllNegative(s: seq<Entry>)
  {
    forall i :: 0 <= i < |s| ==> s[i].1 < 0
  }

  predicate Descending(s: seq<Entry>)
  {
    forall i, j :: 0 <= i < j < |s| ==> s[i].1 >= s[j].1
  }

  predicate Ascending(s: seq<Entry>)
  {
    forall i, j :: 0 <= i < j < |s| ==> s[i].1 <= s[j].1
  }

  /** Sum of the balances of the entries. */
  function EntrySum(s: seq<Entry>): int
  {
    if s == [] then 0 else s[0].1 + EntrySum(s[1..])
  }

  /** The balance map's entries: each distinct participant id, in first-occurrence order, with its balance. */
  function BalanceEntries(participants: seq<Participant>, expenses: seq<Expense>): (r: seq<Entry>)
    ensures |r| == |Ids(participants)|
    ensures forall i :: 0 <= i < |r| ==> r[i] == (Ids(participants)[i], Balance(Ids(participants)[i], expenses))
  {
    var ids := Ids(participants);
    seq(|ids|, i requires 0 <= i < |ids| => (ids[i], Balance(ids[i], expenses)))
  }

  /** `filter(([_, balance]) => balance > 0)`. */
  function Positives(s: seq<Entry>): (r: seq<Entry>)
    ensures forall x :: x in r <==> x in s && x.1 > 0
    ensures DistinctKeys(s) ==> DistinctKeys(r)
  {
    if s == [] then []
    else
      var rest := Positives(s[1..]);
      assert forall x :: x in s <==> x == s[0] || x in s[1..];
      assert DistinctKeys(s) ==> forall x :: x in rest ==> x.0 != s[0].0;
      if s[0].1 > 0 then [s[0]] + rest else rest
  }

  /** `filter(([_, balance]) => balance < 0)`. */
  function Negatives(s: seq<Entry>): (r: seq<Entry>)
    ensures forall x :: x in r <==> x in s && x.1 < 0
    ensures DistinctKeys(s) ==> DistinctKeys(r)
  {
    if s == [] then []
    else
      var rest := Negatives(s[1..]);
      assert forall x :: x in s <==> x == s[0] || x in s[1..];
      assert DistinctKeys(s) ==> forall x :: x in rest ==> x.0 != s[0].0;
      if s[0].1 < 0 then [s[0]] + rest else rest
  }

  /** Inserts `x` before the first entry with a balance not above its own. */
  function InsertDescending(x: Entry, s: seq<Entry>): (r: seq<Entry>)
    ensures multiset(r) == multiset([x] + s)
  {
    if s == [] || x.1 >= s[0].1 then [x] + s
    else
      assert s == [s[0]] + s[1..];
      [s[0]] + InsertDescending(x, s[1..])
  }

  /** Stable sort by balance, largest first (`sort((a, b) => b[1] - a[1])`). */
  function SortDescending(s: seq<Entry>): (r: seq<Entry>)
    ensures multiset(r) == multiset(s)
  {
    if s == [] then []
    else
      assert s == [s[0]] + s[1..];
      InsertDescending(s[0], SortDescending(s[1..]))
  }

  /** Inserts `x` before the first entry with a balance not below its own. */
  function InsertAscending(x: Entry, s: seq<Entry>): (r: seq<Entry>)
    ensures multiset(r) == multiset([x] + s)
  {
    if s == [] || x.1 <= s[0].1 then [x] + s
    else
      assert s == [s[0]] + s[1..];
      [s[0]] + InsertAscending(x, s[1..])
  }

  /** Stable sort by balance, most negative first (`sort((a, b) => a[1] - b[1])`). */
  function SortAscending(s: seq<Entry>): (r: seq<Entry>)
    ensures multiset(r) == multiset(s)
  {
    if s == [] then []
    else
      assert s == [s[0]] + s[1..];
      InsertAscending(s[0], SortAscending(s[1..]))
  }

  /** The entries with balance `v`, in their order in `s`. */
  function WithBalance(s: seq<Entry>, v: int): seq<Entry>
  {
    if s == [] then [] else (if s[0].1 == v then [s[0]] else []) + WithBalance(s[1..], v)
  }

  /** The creditor filter keeps the entries of each positive balance in their order. */
  lemma {:induction false} PositivesWithBalance(s: seq<Entry>, v: int)
    requires v > 0
    ensures WithBalance(Positives(s), v) == WithBalance(s, v)
  {
    if s != [] {
      PositivesWithBalance(s[1..], v);
      if s[0].1 > 0 {
        assert ([s[0]] + Positives(s[1..]))[1..] == Positives(s[1..]);
      }
    }
  }

  /** The debtor filter keeps the entries of each negative balance in their order. */
  lemma {:induction false} NegativesWithBalance(s: seq<Entry>, v: int)
    requires v < 0
    ensures WithBalance(Negatives(s), v) == WithBalance(s, v)
  {
    if s != [] {
      NegativesWithBalance(s[1..], v);
      if s[0].1 < 0 {
        assert ([s[0]] + Negatives(s[1..]))[1..] == Negatives(s[1..]);
      }
    }
  }

  /** An entry inserted in descending position goes before the entries of equal balance. */
  lemma {:induction false} InsertDescendingStable(x: Entry, s: seq<Entry>, v: int)
    ensures WithBalance(InsertDescending(x, s), v) == (if x.1 == v then [x] else []) + WithBalance(s, v)
  {
    if s != [] && x.1 < s[0].1 {
      InsertDescendingStable(x, s[1..], v);
      assert ([s[0]] + InsertDescending(x, s[1..]))[1..] == InsertDescending(x, s[1..]);
    } else {
      assert ([x] + s)[1..] == s;
    }
  }

  /** The creditor sort is stable: entries of equal balance keep their order, as `Array.prototype.sort` guarantees. */
  lemma {:induction false} SortDescendingStable(s: seq<Entry>, v: int)
    ensures WithBalance(SortDescending(s), v) == WithBalance(s, v)
  {
    if s != [] {
      SortDescendingStable(s[1..], v);
      InsertDescendingStable(s[0], SortDescending(s[1..]), v);
    }
  }

  /** An entry inserted in ascending position goes before the entries of equal balance. */
  lemma {:induction false} InsertAscendingStable(x: Entry, s: seq<Entry>, v: int)
    ensures WithBalance(InsertAscending(x, s), v) == (if x.1 == v then [x] else []) + WithBalance(s, v)
  {
    if s != [] && x.1 > s[0].1 {
      InsertAscendingStable(x, s[1..], v);
      assert ([s[0]] + InsertAscending(x, s[1..]))[1..] == InsertAscending(x, s[1..]);
    } else {
      assert ([x] + s)[1..] == s;
    }
  }

  /** The debtor sort is stable: entries of equal balance keep their order. */
  lemma {:induction false} SortAscendingStable(s: seq<Entry>, v: int)
    ensures WithBalance(SortAscending(s), v) == WithBalance(s, v)
  {
    if s != [] {
      SortAscendingStable(s[1..], v);
      InsertAscendingStable(s[0], SortAscending(s[1..]), v);
    }
  }

  /** Everything in a permutation of `s` is in `s`. */
  lemma PermutationMembers(r: seq<Entry>, s: seq<Entry>)
    requires multiset(r) == multiset(s)
    ensures forall y :: y in r <==> y in s
  {
    assert forall y :: y in r <==> y in multiset(r);
    assert forall y :: y in s <==> y in multiset(s);
  }

  /** A head no smaller than anything in a descending tail keeps the list descending. */
  lemma DescendingCons(h: Entry, rest: seq<Entry>)
    requires Descending(rest) && forall y :: y in rest ==> h.1 >= y.1
    ensures Descending([h] + rest)
  {
    var r := [h] + rest;
    forall i, j | 0 <= i < j < |r| ensures r[i].1 >= r[j].1 {
      assert r[j] == rest[j - 1];
      if i > 0 { assert r[i] == rest[i - 1]; }
    }
  }

  /** A head no larger than anything in an ascending tail keeps the list ascending. */
  lemma AscendingCons(h: Entry, rest: seq<Entry>)
    requires Ascending(rest) && forall y :: y in rest ==> h.1 <= y.1
    ensures Ascending([h] + rest)
  {
    var r := [h] + rest;
    forall i, j | 0 <= i < j < |r| ensures r[i].1 <= r[j].1 {
      assert r[j] == rest[j - 1];
      if i > 0 { assert r[i] == rest[i - 1]; }
    }
  }

  lemma {:induction false} InsertDescendingSorted(x: Entry, s: seq<Entry>)
    requires Descending(s)
    ensures Descending(InsertDescending(x, s))
  {
    if s != [] && x.1 < s[0].1 {
      var rest := InsertDescending(x, s[1..]);
      InsertDescendingSorted(x, s[1..]);
      PermutationMembers(rest, [x] + s[1..]);
      forall y | y in rest ensures s[0].1 >= y.1 {
        if y != x {
          var k :| 0 <= k < |s[1..]| && s[1..][k] == y;
          assert s[k + 1] == y;
        }
      }
      DescendingCons(s[0], rest);
    }
  }

  /** The creditors come out sorted by balance, largest first. */
  lemma {:induction false} SortDescendingSorted(s: seq<Entry>)
    ensures Descending(SortDescending(s))
  {
    if s != [] {
      SortDescendingSorted(s[1..]);
      InsertDescendingSorted(s[0], SortDescending(s[1..]));
    }
  }

  lemma {:induction false} InsertAscendingSorted(x: Entry, s: seq<Entry>)
    requires Ascending(s)
    ensures Ascending(InsertAscending(x, s))
  {
    if s != [] && x.1 > s[0].1 {
      var rest := InsertAscending(x, s[1..]);
      InsertAscendingSorted(x, s[1..]);
      PermutationMembers(rest, [x] + s[1..]);
      forall y | y in rest ensures s[0].1 <= y.1 {
        if y != x {
          var k :| 0 <= k < |s[1..]| && s[1..][k] == y;
          assert s[k + 1] == y;
        }
      }
      AscendingCons(s[0], rest);
    }
  }

  /** The debtors come out sorted by balance, most negative first. */
  lemma {:induction false} SortAscendingSorted(s: seq<Entry>)
    ensures Ascending(SortAscending(s))
  {
    if s != [] {
      SortAscendingSorted(s[1..]);
      InsertAscendingSorted(s[0], SortAscending(s[1..]));
    }
  }

  /**
   * The greedy matching loop, stated as a function: pay the smaller of the
   * head creditor's balance and the head debtor's debt, drop a head that
   * reaches 0 and otherwise overwrite its balance without re-sorting.
   */
  function Greedy(creditors: seq<Entry>, debtors: seq<Entry>): seq<Settlement>
    requires AllPositive(creditors) && AllNegative(debtors)
    decreases |creditors| + |debtors|
  {
    if creditors == [] || debtors == [] then []
    else
      var amount := SettlementAmount(creditors[0].1, debtors[0].1);
      (if amount > 0 then [Settlement(debtors[0].0, creditors[0].0, amount)] else [])
        + Greedy(PayCreditor(creditors, amount), ChargeDebtor(debtors, amount))
  }

  /** `Math.min(creditAmount, Math.abs(debtAmount))` for a negative debt. */
  function SettlementAmount(credit: Cents, debt: Cents): Cents
  {
    if credit <= -debt then credit else -debt
  }

  /** The creditors after the head received `amount`: shifted off when settled, its balance overwritten otherwise. */
  function PayCreditor(creditors: seq<Entry>, amount: Cents): (r: seq<Entry>)
    requires creditors != [] && 0 < amount <= creditors[0].1 && AllPositive(creditors)
    ensures AllPositive(r)
    ensures EntrySum(r) == EntrySum(creditors) - amount
    ensures amount == creditors[0].1 ==> r == creditors[1..]
    ensures amount < creditors[0].1 ==>
      |r| == |creditors| && r[0] == (creditors[0].0, creditors[0].1 - amount) && r[1..] == creditors[1..]
  {
    if creditors[0].1 - amount == 0 then creditors[1..]
    else
      var r := creditors[0 := (creditors[0].0, creditors[0].1 - amount)];
      assert r[1..] == creditors[1..];
      r
  }

  /** The debtors after the head paid `amount`: shifted off when settled, its balance overwritten otherwise. */
  function ChargeDebtor(debtors: seq<Entry>, amount: Cents): (r: seq<Entry>)
    requires debtors != [] && 0 < amount <= -debtors[0].1 && AllNegative(debtors)
    ensures AllNegative(r)
    ensures EntrySum(r) == EntrySum(debtors) + amount
    ensures amount == -debtors[0].1 ==> r == debtors[1..]
    ensures amount < -debtors[0].1 ==>
      |r| == |debtors| && r[0] == (debtors[0].0, debtors[0].1 + amount) && r[1..] == debtors[1..]
  {
    if debtors[0].1 + amount == 0 then debtors[1..]
    else
      var r := debtors[0 := (debtors[0].0, debtors[0].1 + amount)];
      assert r[1..] == debtors[1..];
      r
  }

  /** What `id` receives over the settlements. */
  function Received(id: Id, settlements: seq<Settlement>): Cents
  {
    if settlements == [] then 0
    else (if settlements[0].to == id then settlements[0].amount else 0) + Received(id, settlements[1..])
  }

  /** What `id` pays over the settlements. */
  function PaidOut(id: Id, settlements: seq<Settlement>): Cents
  {
    if settlements == [] then 0
    else (if settlements[0].from == id then settlements[0].amount else 0) + PaidOut(id, settlements[1..])
  }

  /** The creditors list of calculateSettlements. */
  function Creditors(participants: seq<Participant>, expenses: seq<Expense>): seq<Entry>
  {
    SortDescending(Positives(BalanceEntries(participants, expenses)))
  }

  /** The debtors list of calculateSettlements. */
  function Debtors(participants: seq<Participant>, expenses: seq<Expense>): seq<Entry>
  {
    SortAscending(Negatives(BalanceEntries(participants, expenses)))
  }

  /** The settlement plan calculateSettlements returns. */
  function SettlementPlan(participants: seq<Participant>, expenses: seq<Expense>): seq<Settlement>
  {
    CreditorsAndDebtors(participants, expenses);
    Greedy(Creditors(participants, expenses), Debtors(participants, expenses))
  }

  /**
   * The greedy loop of calculateSettlements: the two lists are worked from
   * the front; a settled head is shifted off, a partly settled head keeps its
   * place with its remaining balance overwritten.
   */
  method SettleGreedily(creditors: seq<Entry>, debtors: seq<Entry>) returns (settlements: seq<Settlement>)
    requires AllPositive(creditors) && AllNegative(debtors)
    ensures settlements == Greedy(creditors, debtors)
  {
    var cs, ds := creditors, debtors;
    settlements := [];
    while |cs| > 0 && |ds| > 0
      invariant AllPositive(cs) && AllNegative(ds)
      invariant settlements + Greedy(cs, ds) == Greedy(creditors, debtors)
      decreases |cs| + |ds|
    {
      var creditorId, credit := cs[0].0, cs[0].1;
      var debtorId, debt := ds[0].0, ds[0].1;
      var amount := if credit <= -debt then credit else -debt;
      assert amount == SettlementAmount(cs[0].1, ds[0].1);
      GreedyStep(settlements, cs, ds, Greedy(creditors, debtors));
      ghost var cs', ds' := PayCreditor(cs, amount), ChargeDebtor(ds, amount);
      if amount > 0 {
        settlements := settlements + [Settlement(debtorId, creditorId, amount)];
      }
      if credit - amount == 0 {
        cs := cs[1..];
      } else {
        cs := cs[0 := (creditorId, credit - amount)];
      }
      if debt + amount == 0 {
        ds := ds[1..];
      } else {
        ds := ds[0 := (debtorId, debt + amount)];
      }
      assert cs == cs' && ds == ds';
    }
  }

  /**
   * One step of the greedy loop keeps the loop's bookkeeping: the payments
   * made so far followed by the plan for the rest is the whole plan.
   */
  lemma GreedyStep(done: seq<Settlement>, cs: seq<Entry>, ds: seq<Entry>, plan: seq<Settlement>)
    requires AllPositive(cs) && AllNegative(ds) && cs != [] && ds != []
    requires done + Greedy(cs, ds) == plan
    ensures SettlementAmount(cs[0].1, ds[0].1) > 0
    ensures var amount := SettlementAmount(cs[0].1, ds[0].1);
      (done + [Settlement(ds[0].0, cs[0].0, amount)]) + Greedy(PayCreditor(cs, amount), ChargeDebtor(ds, amount)) == plan
  {
    var amount := SettlementAmount(cs[0].1, ds[0].1);
    var step := Settlement(ds[0].0, cs[0].0, amount);
    var rest := Greedy(PayCreditor(cs, amount), ChargeDebtor(ds, amount));
    assert Greedy(cs, ds) == [step] + rest;
    assert (done + [step]) + rest == done + ([step] + rest);
  }

  /**
   * calculateSettlements: balances, then the creditors sorted largest first
   * and the debtors most negative first, then the greedy loop.
   */
  method CalculateSettlements(participants: seq<Participant>, expenses: seq<Expense>) returns (settlements: seq<Settlement>)
    ensures settlements == SettlementPlan(participants, expenses)
  {
    var balances := CalculateBalances(participants, expenses);
    var ids := Ids(participants);
    assert forall id :: id in ids ==> id in balances by {
      forall id | id in ids ensures id in balances {
        ParticipantIdsMembership(participants, id);
      }
    }
    var entries := seq(|ids|, i requires 0 <= i < |ids| => (ids[i], balances[ids[i]]));
    assert entries == BalanceEntries(participants, expenses);
    var creditors := SortDescending(Positives(entries));
    var debtors := SortAscending(Negatives(entries));
    CreditorsAndDebtors(participants, expenses);
    settlements := SettleGreedily(creditors, debtors);
  }

  // ---------------------------------------------------------------------
  // Properties of the greedy loop

  lemma {:induction false} HasKeyTail(s: seq<Entry>, id: Id)
    requires s != [] && HasKey(s[1..], id)
    ensures HasKey(s, id)
  {
    var i :| 0 <= i < |s[1..]| && s[1..][i].0 == id;
    assert s[i + 1].0 == id;
  }

  /**
   * Every settlement pays a positive amount from a listed debtor to a listed
   * creditor; no settlement is emitted when a list is empty, and otherwise
   * there are fewer settlements than creditors and debtors together, because
   * each step settles at least one party.
   */
  lemma {:induction false} GreedyShape(creditors: seq<Entry>, debtors: seq<Entry>)
    requires AllPositive(creditors) && AllNegative(debtors)
    ensures forall s :: s in Greedy(creditors, debtors) ==> s.amount > 0 && HasKey(creditors, s.to) && HasKey(debtors, s.from)
    ensures creditors == [] || debtors == [] ==> Greedy(creditors, debtors) == []
    ensures creditors != [] && debtors != [] ==> 0 < |Greedy(creditors, debtors)| < |creditors| + |debtors|
    decreases |creditors| + |debtors|
  {
    if creditors != [] && debtors != [] {
      var (creditorId, credit) := creditors[0];
      var (debtorId, debt) := debtors[0];
      var amount := SettlementAmount(credit, debt);
      var creditors', debtors' := PayCreditor(creditors, amount), ChargeDebtor(debtors, amount);
      GreedyShape(creditors', debtors');
      var rest := Greedy(creditors', debtors');
      assert Greedy(creditors, debtors) == [Settlement(debtorId, creditorId, amount)] + rest;
      forall id | HasKey(creditors', id) ensures HasKey(creditors, id) {
        if credit - amount == 0 {
          HasKeyTail(creditors, id);
        } else {
          var i :| 0 <= i < |creditors'| && creditors'[i].0 == id;
          assert creditors[i].0 == id;
        }
      }
      forall id | HasKey(debtors', id) ensures HasKey(debtors, id) {
        if debt + amount == 0 {
          HasKeyTail(debtors, id);
        } else {
          var i :| 0 <= i < |debtors'| && debtors'[i].0 == id;
          assert debtors[i].0 == id;
        }
      }
      assert HasKey(creditors, creditorId) && HasKey(debtors, debtorId);
    }
  }

  /** Replacing the head's balance or dropping the head keeps the keys distinct. */
  lemma TailKeys(s: seq<Entry>, s': seq<Entry>)
    requires s != [] && DistinctKeys(s)
    requires s' == s[1..] || (s' != [] && s'[0].0 == s[0].0 && s'[1..] == s[1..])
    ensures DistinctKeys(s')
  {
    if s' != s[1..] {
      forall i, j | 0 <= i < j < |s'| ensures s'[i].0 != s'[j].0 {
        assert s'[j] == s[j];
        assert i > 0 ==> s'[i] == s[i];
      }
    }
  }

  /** A list of positive balances with sum 0 is empty. */
  lemma {:induction false} PositiveSum(s: seq<Entry>)
    requires AllPositive(s)
    ensures s != [] ==> EntrySum(s) > 0
    ensures EntrySum(s) >= 0
  {
    if s != [] {
      PositiveSum(s[1..]);
    }
  }

  /** A list of negative balances with sum 0 is empty. */
  lemma {:induction false} NegativeSum(s: seq<Entry>)
    requires AllNegative(s)
    ensures s != [] ==> EntrySum(s) < 0
    ensures EntrySum(s) <= 0
  {
    if s != [] {
      NegativeSum(s[1..]);
    }
  }

  lemma {:induction false} ReceivedByNoOne(id: Id, settlements: seq<Settlement>)
    requires forall s :: s in settlements ==> s.to != id
    ensures Received(id, settlements) == 0
  {
    if settlements != [] {
      ReceivedByNoOne(id, settlements[1..]);
    }
  }

  lemma {:induction false} PaidOutByNoOne(id: Id, settlements: seq<Settlement>)
    requires forall s :: s in settlements ==> s.from != id
    ensures PaidOut(id, settlements) == 0
  {
    if settlements != [] {
      PaidOutByNoOne(id, settlements[1..]);
    }
  }

  /**
   * No creditor receives more than its balance; when the balances of both
   * lists add up to 0, every creditor receives exactly its balance.
   */
  lemma {:induction false} GreedyPaysCreditors(creditors: seq<Entry>, debtors: seq<Entry>)
    requires AllPositive(creditors) && AllNegative(debtors) && DistinctKeys(creditors)
    ensures forall i :: 0 <= i < |creditors| ==> Received(creditors[i].0, Greedy(creditors, debtors)) <= creditors[i].1
    ensures EntrySum(creditors) + EntrySum(debtors) == 0 ==>
      forall i :: 0 <= i < |creditors| ==> Received(creditors[i].0, Greedy(creditors, debtors)) == creditors[i].1
    decreases |creditors| + |debtors|
  {
    var plan := Greedy(creditors, debtors);
    if creditors == [] {
    } else if debtors == [] {
      PositiveSum(creditors);
      NegativeSum(debtors);
      forall i | 0 <= i < |creditors| ensures Received(creditors[i].0, plan) <= creditors[i].1 {
      }
    } else {
      var (creditorId, credit) := creditors[0];
      var (debtorId, debt) := debtors[0];
      var amount := SettlementAmount(credit, debt);
      var creditors', debtors' := PayCreditor(creditors, amount), ChargeDebtor(debtors, amount);
      var rest := Greedy(creditors', debtors');
      assert plan == [Settlement(debtorId, creditorId, amount)] + rest;
      assert plan[1..] == rest;
      TailKeys(creditors, creditors');
      GreedyPaysCreditors(creditors', debtors');
      GreedyShape(creditors', debtors');
      forall i | 0 <= i < |creditors|
        ensures Received(creditors[i].0, plan) <= creditors[i].1
        ensures EntrySum(creditors) + EntrySum(debtors) == 0 ==> Received(creditors[i].0, plan) == creditors[i].1
      {
        if i == 0 {
          if credit - amount == 0 {
            KeysOfTail(creditors);
            assert forall s :: s in rest ==> s.to != creditorId;
            ReceivedByNoOne(creditorId, rest);
          } else {
            assert creditors'[0] == (creditorId, credit - amount);
          }
        } else {
          assert creditors[i].0 != creditorId;
          if credit - amount == 0 {
            assert creditors'[i - 1] == creditors[i];
          } else {
            assert creditors'[i] == creditors[i];
          }
        }
      }
    }
  }

  /**
   * No debtor pays more than its debt; when the balances of both lists add
   * up to 0, every debtor pays exactly its debt.
   */
  lemma {:induction false} GreedyChargesDebtors(creditors: seq<Entry>, debtors: seq<Entry>)
    requires AllPositive(creditors) && AllNegative(debtors) && DistinctKeys(debtors)
    ensures forall i :: 0 <= i < |debtors| ==> PaidOut(debtors[i].0, Greedy(creditors, debtors)) <= -debtors[i].1
    ensures EntrySum(creditors) + EntrySum(debtors) == 0 ==>
      forall i :: 0 <= i < |debtors| ==> PaidOut(debtors[i].0, Greedy(creditors, debtors)) == -debtors[i].1
    decreases |creditors| + |debtors|
  {
    var plan := Greedy(creditors, debtors);
    if debtors == [] {
    } else if creditors == [] {
      PositiveSum(creditors);
      NegativeSum(debtors);
      forall i | 0 <= i < |debtors| ensures PaidOut(debtors[i].0, plan) <= -debtors[i].1 {
      }
    } else {
      var (creditorId, credit) := creditors[0];
      var (debtorId, debt) := debtors[0];
      var amount := SettlementAmount(credit, debt);
      var creditors', debtors' := PayCreditor(creditors, amount), ChargeDebtor(debtors, amount);
      var rest := Greedy(creditors', debtors');
      assert plan == [Settlement(debtorId, creditorId, amount)] + rest;
      assert plan[1..] == rest;
      TailKeys(debtors, debtors');
      GreedyChargesDebtors(creditors', debtors');
      GreedyShape(creditors', debtors');
      forall i | 0 <= i < |debtors|
        ensures PaidOut(debtors[i].0, plan) <= -debtors[i].1
        ensures EntrySum(creditors) + EntrySum(debtors) == 0 ==> PaidOut(debtors[i].0, plan) == -debtors[i].1
      {
        if i == 0 {
          if debt + amount == 0 {
            KeysOfTail(debtors);
            assert forall s :: s in rest ==> s.from != debtorId;
            PaidOutByNoOne(debtorId, rest);
          } else {
            assert debtors'[0] == (debtorId, debt + amount);
          }
        } else {
          assert debtors[i].0 != debtorId;
          if debt + amount == 0 {
            assert debtors'[i - 1] == debtors[i];
          } else {
            assert debtors'[i] == debtors[i];
          }
        }
      }
    }
  }

  // ---------------------------------------------------------------------
  // Sorting keeps the keys distinct and the sum unchanged

  /** In a list with distinct keys, the tail does not repeat the head's key. */
  lemma KeysOfTail(s: seq<Entry>)
    requires s != [] && DistinctKeys(s)
    ensures forall y :: y in s[1..] ==> y.0 != s[0].0
    ensures !HasKey(s[1..], s[0].0)
  {
    forall y | y in s[1..] ensures y.0 != s[0].0 {
      var k :| 0 <= k < |s[1..]| && s[1..][k] == y;
      assert s[k + 1] == y;
    }
  }

  /** A head whose key the tail lacks keeps the keys distinct. */
  lemma DistinctKeysCons(h: Entry, rest: seq<Entry>)
    requires DistinctKeys(rest) && forall y :: y in rest ==> y.0 != h.0
    ensures DistinctKeys([h] + rest)
  {
    var r := [h] + rest;
    forall i, j | 0 <= i < j < |r| ensures r[i].0 != r[j].0 {
      assert r[j] == rest[j - 1];
      if i > 0 { assert r[i] == rest[i - 1]; }
    }
  }

  lemma {:induction false} InsertDescendingKeys(x: Entry, s: seq<Entry>)
    requires DistinctKeys(s) && !HasKey(s, x.0)
    ensures DistinctKeys(InsertDescending(x, s))
  {
    if s != [] && x.1 < s[0].1 {
      var rest := InsertDescending(x, s[1..]);
      assert !HasKey(s[1..], x.0) by {
        if HasKey(s[1..], x.0) { HasKeyTail(s, x.0); }
      }
      InsertDescendingKeys(x, s[1..]);
      PermutationMembers(rest, [x] + s[1..]);
      KeysOfTail(s);
      forall y | y in rest ensures y.0 != s[0].0 {
        assert y == x || y in s[1..];
      }
      DistinctKeysCons(s[0], rest);
    }
  }

  lemma {:induction false} SortDescendingKeys(s: seq<Entry>)
    requires DistinctKeys(s)
    ensures DistinctKeys(SortDescending(s))
  {
    if s != [] {
      var r := SortDescending(s[1..]);
      SortDescendingKeys(s[1..]);
      PermutationMembers(r, s[1..]);
      KeysOfTail(s);
      assert !HasKey(r, s[0].0) by {
        forall k | 0 <= k < |r| ensures r[k].0 != s[0].0 {
          assert r[k] in s[1..];
        }
      }
      InsertDescendingKeys(s[0], r);
    }
  }

  lemma {:induction false} InsertAscendingKeys(x: Entry, s: seq<Entry>)
    requires DistinctKeys(s) && !HasKey(s, x.0)
    ensures DistinctKeys(InsertAscending(x, s))
  {
    if s != [] && x.1 > s[0].1 {
      var rest := InsertAscending(x, s[1..]);
      assert !HasKey(s[1..], x.0) by {
        if HasKey(s[1..], x.0) { HasKeyTail(s, x.0); }
      }
      InsertAscendingKeys(x, s[1..]);
      PermutationMembers(rest, [x] + s[1..]);
      KeysOfTail(s);
      forall y | y in rest ensures y.0 != s[0].0 {
        assert y == x || y in s[1..];
      }
      DistinctKeysCons(s[0], rest);
    }
  }

  lemma {:induction false} SortAscendingKeys(s: seq<Entry>)
    requires DistinctKeys(s)
    ensures DistinctKeys(SortAscending(s))
  {
    if s != [] {
      var r := SortAscending(s[1..]);
      SortAscendingKeys(s[1..]);
      PermutationMembers(r, s[1..]);
      KeysOfTail(s);
      assert !HasKey(r, s[0].0) by {
        forall k | 0 <= k < |r| ensures r[k].0 != s[0].0 {
          assert r[k] in s[1..];
        }
      }
      InsertAscendingKeys(s[0], r);
    }
  }

  lemma {:induction false} InsertDescendingSum(x: Entry, s: seq<Entry>)
    ensures EntrySum(InsertDescending(x, s)) == x.1 + EntrySum(s)
  {
    if s != [] && x.1 < s[0].1 {
      InsertDescendingSum(x, s[1..]);
      assert ([s[0]] + InsertDescending(x, s[1..]))[1..] == InsertDescending(x, s[1..]);
    } else {
      assert ([x] + s)[1..] == s;
    }
  }

  lemma {:induction false} SortDescendingSum(s: seq<Entry>)
    ensures EntrySum(SortDescending(s)) == EntrySum(s)
  {
    if s != [] {
      SortDescendingSum(s[1..]);
      InsertDescendingSum(s[0], SortDescending(s[1..]));
    }
  }

  lemma {:induction false} InsertAscendingSum(x: Entry, s: seq<Entry>)
    ensures EntrySum(InsertAscending(x, s)) == x.1 + EntrySum(s)
  {
    if s != [] && x.1 > s[0].1 {
      InsertAscendingSum(x, s[1..]);
      assert ([s[0]] + InsertAscending(x, s[1..]))[1..] == InsertAscending(x, s[1..]);
    } else {
      assert ([x] + s)[1..] == s;
    }
  }

  lemma {:induction false} SortAscendingSum(s: seq<Entry>)
    ensures EntrySum(SortAscending(s)) == EntrySum(s)
  {
    if s != [] {
      SortAscendingSum(s[1..]);
      InsertAscendingSum(s[0], SortAscending(s[1..]));
    }
  }

  /** The positive and the negative balances together add up to all balances. */
  lemma {:induction false} PartitionSum(s: seq<Entry>)
    ensures EntrySum(Positives(s)) + EntrySum(Negatives(s)) == EntrySum(s)
  {
    if s != [] {
      PartitionSum(s[1..]);
      var p, n := Positives(s[1..]), Negatives(s[1..]);
      assert ([s[0]] + p)[1..] == p;
      assert ([s[0]] + n)[1..] == n;
    }
  }

  lemma {:induction false} SumOverFront(ids: seq<Id>, f: Id -> int)
    requires ids != []
    ensures SumOver(ids, f) == f(ids[0]) + SumOver(ids[1..], f)
  {
    if |ids| > 1 {
      SumOverFront(ids[..|ids| - 1], f);
      assert ids[..|ids| - 1][1..] == ids[1..][..|ids[1..]| - 1];
    }
  }

  lemma {:induction false} EntrySumOfIds(ids: seq<Id>, f: Id -> int, entries: seq<Entry>)
    requires |entries| == |ids|
    requires forall i :: 0 <= i < |ids| ==> entries[i] == (ids[i], f(ids[i]))
    ensures EntrySum(entries) == SumOver(ids, f)
  {
    if ids != [] {
      SumOverFront(ids, f);
      EntrySumOfIds(ids[1..], f, entries[1..]);
    }
  }

  // ---------------------------------------------------------------------
  // The creditors and debtors lists of a bill

  /** The balance entries have distinct keys and are exactly the pairs of a participant id and its balance. */
  lemma BalanceEntriesMembers(participants: seq<Participant>, expenses: seq<Expense>)
    ensures DistinctKeys(BalanceEntries(participants, expenses))
    ensures forall x :: x in BalanceEntries(participants, expenses) <==>
      x.0 in Ids(participants) && x.1 == Balance(x.0, expenses)
  {
    var entries := BalanceEntries(participants, expenses);
    var ids := Ids(participants);
    forall x ensures x in entries <==> x.0 in ids && x.1 == Balance(x.0, expenses) {
      if x.0 in ids {
        var i :| 0 <= i < |ids| && ids[i] == x.0;
        assert entries[i] == (x.0, Balance(x.0, expenses));
      }
    }
  }

  /** The creditors: the participants with a positive balance, each once, largest balance first. */
  lemma CreditorsOfBill(participants: seq<Participant>, expenses: seq<Expense>)
    ensures AllPositive(Creditors(participants, expenses))
    ensures DistinctKeys(Creditors(participants, expenses)) && Descending(Creditors(participants, expenses))
    ensures forall x :: x in Creditors(participants, expenses) <==>
      x.0 in Ids(participants) && x.1 == Balance(x.0, expenses) && x.1 > 0
  {
    var entries := BalanceEntries(participants, expenses);
    var cs := Creditors(participants, expenses);
    BalanceEntriesMembers(participants, expenses);
    PermutationMembers(cs, Positives(entries));
    assert forall i :: 0 <= i < |cs| ==> cs[i] in cs;
    SortDescendingKeys(Positives(entries));
    SortDescendingSorted(Positives(entries));
  }

  /** The debtors: the participants with a negative balance, each once, most negative first. */
  lemma DebtorsOfBill(participants: seq<Participant>, expenses: seq<Expense>)
    ensures AllNegative(Debtors(participants, expenses))
    ensures DistinctKeys(Debtors(participants, expenses)) && Ascending(Debtors(participants, expenses))
    ensures forall x :: x in Debtors(participants, expenses) <==>
      x.0 in Ids(participants) && x.1 == Balance(x.0, expenses) && x.1 < 0
  {
    var entries := BalanceEntries(participants, expenses);
    var ds := Debtors(participants, expenses);
    BalanceEntriesMembers(participants, expenses);
    PermutationMembers(ds, Negatives(entries));
    assert forall i :: 0 <= i < |ds| ==> ds[i] in ds;
    SortAscendingKeys(Negatives(entries));
    SortAscendingSorted(Negatives(entries));
  }

  /**
   * Ties keep key order: the creditors with one positive balance appear in
   * the order of the balance record's keys, so on a tie the creditor whose
   * id was entered first is paid first.
   */
  lemma CreditorsTieOrder(participants: seq<Participant>, expenses: seq<Expense>, v: int)
    requires v > 0
    ensures WithBalance(Creditors(participants, expenses), v) == WithBalance(BalanceEntries(participants, expenses), v)
  {
    var entries := BalanceEntries(participants, expenses);
    SortDescendingStable(Positives(entries), v);
    PositivesWithBalance(entries, v);
  }

  /** Ties keep key order among the debtors too. */
  lemma DebtorsTieOrder(participants: seq<Participant>, expenses: seq<Expense>, v: int)
    requires v < 0
    ensures WithBalance(Debtors(participants, expenses), v) == WithBalance(BalanceEntries(participants, expenses), v)
  {
    var entries := BalanceEntries(participants, expenses);
    SortAscendingStable(Negatives(entries), v);
    NegativesWithBalance(entries, v);
  }

  /** Both lists at once, as the settlement lemmas use them. */
  lemma CreditorsAndDebtors(participants: seq<Participant>, expenses: seq<Expense>)
    ensures AllPositive(Creditors(participants, expenses)) && AllNegative(Debtors(participants, expenses))
    ensures DistinctKeys(Creditors(participants, expenses)) && DistinctKeys(Debtors(participants, expenses))
    ensures Descending(Creditors(participants, expenses)) && Ascending(Debtors(participants, expenses))
    ensures forall x :: x in Creditors(participants, expenses) <==>
      x.0 in Ids(participants) && x.1 == Balance(x.0, expenses) && x.1 > 0
    ensures forall x :: x in Debtors(participants, expenses) <==>
      x.0 in Ids(participants) && x.1 == Balance(x.0, expenses) && x.1 < 0
  {
    CreditorsOfBill(participants, expenses);
    DebtorsOfBill(participants, expenses);
  }

  /** The filters leave out the zero balances and keep the rest. */
  lemma {:induction false} PartitionLength(s: seq<Entry>)
    ensures |Positives(s)| + |Negatives(s)| <= |s|
  {
    if s != [] {
      PartitionLength(s[1..]);
    }
  }

  // ---------------------------------------------------------------------
  // Properties of the settlement plan of a bill

  /**
   * Every payment of the plan is a positive amount from a participant with a
   * negative balance to a participant with a positive balance (so never from
   * a participant to itself).
   */
  lemma PlanPaysDebtorsToCreditors(participants: seq<Participant>, expenses: seq<Expense>)
    ensures forall s :: s in SettlementPlan(participants, expenses) ==>
      && s.amount > 0
      && s.from in Ids(participants) && Balance(s.from, expenses) < 0
      && s.to in Ids(participants) && Balance(s.to, expenses) > 0
  {
    CreditorsAndDebtors(participants, expenses);
    var cs, ds := Creditors(participants, expenses), Debtors(participants, expenses);
    GreedyShape(cs, ds);
    forall s | s in SettlementPlan(participants, expenses)
      ensures s.from in Ids(participants) && Balance(s.from, expenses) < 0
      ensures s.to in Ids(participants) && Balance(s.to, expenses) > 0
    {
      var i :| 0 <= i < |cs| && cs[i].0 == s.to;
      assert cs[i] in cs;
      var j :| 0 <= j < |ds| && ds[j].0 == s.from;
      assert ds[j] in ds;
    }
  }

  /**
   * The plan is empty exactly when nobody is owed money or nobody owes
   * money; otherwise it has fewer payments than there are participants.
   */
  lemma PlanLength(participants: seq<Participant>, expenses: seq<Expense>)
    ensures SettlementPlan(participants, expenses) == [] <==>
      (forall id :: id in Ids(participants) ==> Balance(id, expenses) <= 0) ||
      (forall id :: id in Ids(participants) ==> Balance(id, expenses) >= 0)
    ensures |SettlementPlan(participants, expenses)| < |Ids(participants)| || Ids(participants) == []
  {
    CreditorsAndDebtors(participants, expenses);
    var cs, ds := Creditors(participants, expenses), Debtors(participants, expenses);
    var entries := BalanceEntries(participants, expenses);
    GreedyShape(cs, ds);
    assert cs == [] <==> forall id :: id in Ids(participants) ==> Balance(id, expenses) <= 0 by {
      if cs != [] {
        assert cs[0] in cs;
      }
      if exists id :: id in Ids(participants) && Balance(id, expenses) > 0 {
        var id :| id in Ids(participants) && Balance(id, expenses) > 0;
        assert (id, Balance(id, expenses)) in cs;
      }
    }
    assert ds == [] <==> forall id :: id in Ids(participants) ==> Balance(id, expenses) >= 0 by {
      if ds != [] {
        assert ds[0] in ds;
      }
      if exists id :: id in Ids(participants) && Balance(id, expenses) < 0 {
        var id :| id in Ids(participants) && Balance(id, expenses) < 0;
        assert (id, Balance(id, expenses)) in ds;
      }
    }
    PartitionLength(entries);
    assert |cs| == |multiset(cs)| == |multiset(Positives(entries))| == |Positives(entries)|;
    assert |ds| == |multiset(ds)| == |multiset(Negatives(entries))| == |Negatives(entries)|;
  }

  /**
   * No one pays or receives more than the balance asks for: a creditor
   * receives at most its balance and pays nothing, a debtor pays at most its
   * debt and receives nothing, and a settled participant does neither.
   */
  lemma PlanNeverOverpays(participants: seq<Participant>, expenses: seq<Expense>, id: Id)
    requires id in Ids(participants)
    ensures 0 <= Received(id, SettlementPlan(participants, expenses)) <= (if Balance(id, expenses) > 0 then Balance(id, expenses) else 0)
    ensures 0 <= PaidOut(id, SettlementPlan(participants, expenses)) <= (if Balance(id, expenses) < 0 then -Balance(id, expenses) else 0)
  {
    PlanShares(participants, expenses, id);
  }

  /**
   * On a well-formed bill the plan settles everyone: each participant
   * receives what the group owes it and pays what it owes the group, so its
   * balance after the payments is exactly 0.
   */
  lemma PlanSettlesEveryone(participants: seq<Participant>, expenses: seq<Expense>, id: Id)
    requires WellFormedBill(participants, expenses)
    requires id in Ids(participants)
    ensures Received(id, SettlementPlan(participants, expenses)) == (if Balance(id, expenses) > 0 then Balance(id, expenses) else 0)
    ensures PaidOut(id, SettlementPlan(participants, expenses)) == (if Balance(id, expenses) < 0 then -Balance(id, expenses) else 0)
    ensures Balance(id, expenses) - Received(id, SettlementPlan(participants, expenses)) + PaidOut(id, SettlementPlan(participants, expenses)) == 0
  {
    var entries := BalanceEntries(participants, expenses);
    BalancesSumToZero(participants, expenses);
    EntrySumOfIds(Ids(participants), x => Balance(x, expenses), entries);
    PartitionSum(entries);
    SortDescendingSum(Positives(entries));
    SortAscendingSum(Negatives(entries));
    PlanShares(participants, expenses, id);
  }

  /**
   * What one participant receives and pays under the plan; the exact
   * amounts are reached when the balances add up to 0.
   */
  lemma PlanShares(participants: seq<Participant>, expenses: seq<Expense>, id: Id)
    requires id in Ids(participants)
    ensures var plan, b := SettlementPlan(participants, expenses), Balance(id, expenses);
      && 0 <= Received(id, plan) <= (if b > 0 then b else 0)
      && 0 <= PaidOut(id, plan) <= (if b < 0 then -b else 0)
      && (EntrySum(Creditors(participants, expenses)) + EntrySum(Debtors(participants, expenses)) == 0 ==>
            Received(id, plan) == (if b > 0 then b else 0) && PaidOut(id, plan) == (if b < 0 then -b else 0))
  {
    CreditorsAndDebtors(participants, expenses);
    var cs, ds := Creditors(participants, expenses), Debtors(participants, expenses);
    var plan, b := SettlementPlan(participants, expenses), Balance(id, expenses);
    PlanPaysDebtorsToCreditors(participants, expenses);
    ReceivedNonNegative(id, plan);
    PaidOutNonNegative(id, plan);
    if b > 0 {
      assert (id, b) in cs;
      var i :| 0 <= i < |cs| && cs[i] == (id, b);
      GreedyPaysCreditors(cs, ds);
    } else {
      ReceivedByNoOne(id, plan);
    }
    if b < 0 {
      assert (id, b) in ds;
      var i :| 0 <= i < |ds| && ds[i] == (id, b);
      GreedyChargesDebtors(cs, ds);
    } else {
      PaidOutByNoOne(id, plan);
    }
  }

  lemma {:induction false} ReceivedNonNegative(id: Id, settlements: seq<Settlement>)
    requires forall s :: s in settlements ==> s.amount > 0
    ensures Received(id, settlements) >= 0
  {
    if settlements != [] {
      ReceivedNonNegative(id, settlements[1..]);
    }
  }

  lemma {:induction false} PaidOutNonNegative(id: Id, settlements: seq<Settlement>)
    requires forall s :: s in settlements ==> s.amount > 0
    ensures PaidOut(id, settlements) >= 0
  {
    if settlements != [] {
      PaidOutNonNegative(id, settlements[1..]);
    }
  }

  /**
   * The first payment goes from the participant with the most negative
   * balance to the one with the largest balance, and is the smaller of the
   * two magnitudes.
   */
  lemma PlanStartsWithLargestPair(participants: seq<Participant>, expenses: seq<Expense>)
    requires SettlementPlan(participants, expenses) != []
    ensures var first := SettlementPlan(participants, expenses)[0];
      && (forall id :: id in Ids(participants) ==> Balance(id, expenses) <= Balance(first.to, expenses))
      && (forall id :: id in Ids(participants) ==> Balance(first.from, expenses) <= Balance(id, expenses))
      && first.amount == SettlementAmount(Balance(first.to, expenses), Balance(first.from, expenses))
  {
    CreditorsAndDebtors(participants, expenses);
    var cs, ds := Creditors(participants, expenses), Debtors(participants, expenses);
    GreedyShape(cs, ds);
    GreedyStep([], cs, ds, Greedy(cs, ds));
    HeadBounds(cs, ds);
    forall id | id in Ids(participants)
      ensures Balance(id, expenses) <= cs[0].1
      ensures ds[0].1 <= Balance(id, expenses)
    {
      var b := Balance(id, expenses);
      if b > 0 {
        assert (id, b) in cs;
      }
      if b < 0 {
        assert (id, b) in ds;
      }
    }
  }

  /** The head of a descending list has the largest balance, that of an ascending list the smallest. */
  lemma HeadBounds(cs: seq<Entry>, ds: seq<Entry>)
    requires cs != [] && ds != [] && Descending(cs) && Ascending(ds)
    ensures forall x :: x in cs ==> x.1 <= cs[0].1
    ensures forall x :: x in ds ==> ds[0].1 <= x.1
  {
    forall x | x in cs ensures x.1 <= cs[0].1 {
      var i :| 0 <= i < |cs| && cs[i] == x;
      assert i > 0 ==> cs[0].1 >= cs[i].1;
    }
    forall x | x in ds ensures ds[0].1 <= x.1 {
      var i :| 0 <= i < |ds| && ds[i] == x;
      assert i > 0 ==> ds[0].1 <= ds[i].1;
    }
  }
}
