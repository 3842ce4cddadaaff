/**
 * The add-expense form: its fields, the ordered validation of a submission
 * (description, amount, selection, then the custom amounts and their sum),
 * the construction of the expense and its splits, participant selection,
 * and the remaining-amount indicator shown while splitting by hand.
 *
 * Numeric text fields are taken as already parsed: empty, a number of
 * cents, or text that is not a number.
 */
module ExpenseForm {
  import opened BillTypes
  import opened Text
  import opened EqualSplits
  import opened Balances

  /** A numeric text field: `''`, a number of cents, or text `parseFloat` reads as NaN. */
  datatype Input = Blank | Num(cents: Cents) | Invalid

  datatype RejectReason =
    | MissingDescription
    | InvalidAmount
    | NoParticipantsSelected
    | InvalidCustomAmount(participantId: Id)
    | CustomTotalMismatch

  datatype SubmitOutcome = Added(expense: Expense) | Rejected(reason: RejectReason)

  /** `customAmounts`: the typed amount per participant id, in the order the ids were first typed for. */
  type CustomAmounts = seq<(Id, Input)>

  function Keys(customs: CustomAmounts): (ks: seq<Id>)
    ensures |ks| == |customs|
    ensures forall i :: 0 <= i < |customs| ==> ks[i] == customs[i].0
  {
    if customs == [] then [] else [customs[0].0] + Keys(customs[1..])
  }

  /** `customAmounts[id]`: the first entry for `id`, if any. */
  function Lookup(customs: CustomAmounts, id: Id): (r: Option<Input>)
    ensures r.Some? <==> id in Keys(customs)
    ensures r.Some? ==> (id, r.value) in customs
  {
    if customs == [] then None
    else if customs[0].0 == id then Some(customs[0].1)
    else
      assert Keys(customs) == [customs[0].0] + Keys(customs[1..]);
      Lookup(customs[1..], id)
  }

  /** The selection with `id` taken out (`filter(x => x !== id)`). */
  function WithoutId(selected: seq<Id>, id: Id): (r: seq<Id>)
    ensures forall x :: x in r <==> x in selected && x != id
    ensures NoDuplicates(selected) ==> NoDuplicates(r)
    ensures id !in selected ==> r == selected
  {
    if selected == [] then []
    else
      var rest := WithoutId(selected[1..], id);
      assert forall x :: x in selected <==> x == selected[0] || x in selected[1..];
      assert NoDuplicates(selected) ==> selected[0] !in selected[1..] && NoDuplicates(selected[1..]);
      assert selected == [selected[0]] + selected[1..];
      if selected[0] != id then [selected[0]] + rest else rest
  }

  /** Deselecting commutes with appending: the remaining ids keep their order, each as often as before. */
  lemma {:induction false} WithoutIdAppend(selected: seq<Id>, x: Id, id: Id)
    ensures WithoutId(selected + [x], id) == WithoutId(selected, id) + (if x != id then [x] else [])
  {
    if selected != [] {
      assert (selected + [x])[1..] == selected[1..] + [x];
      WithoutIdAppend(selected[1..], x, id);
    } else {
      assert [x][1..] == [];
    }
  }

  /** `{...customAmounts, [id]: value}`: an existing entry is overwritten in place, a new one goes last. */
  function SetEntry(customs: CustomAmounts, id: Id, value: Input): (r: CustomAmounts)
    ensures Keys(r) == if id in Keys(customs) then Keys(customs) else Keys(customs) + [id]
  {
    if customs == [] then [(id, value)]
    else if customs[0].0 == id then [(id, value)] + customs[1..]
    else
      var rest := SetEntry(customs[1..], id, value);
      assert Keys([customs[0]] + rest) == [customs[0].0] + Keys(rest);
      assert Keys(customs) == [customs[0].0] + Keys(customs[1..]);
      [customs[0]] + rest
  }

  /** After setting `id`, `id` reads the new value and every other key reads what it read before. */
  lemma {:induction false} SetEntryLookup(customs: CustomAmounts, id: Id, value: Input, k: Id)
    ensures Lookup(SetEntry(customs, id, value), k) == if k == id then Some(value) else Lookup(customs, k)
  {
    if customs != [] && customs[0].0 != id {
      SetEntryLookup(customs[1..], id, value, k);
    }
  }

  /** `delete customAmounts[id]`. */
  function RemoveEntry(customs: CustomAmounts, id: Id): (r: CustomAmounts)
    ensures Lookup(r, id) == None
    ensures forall k :: k != id ==> Lookup(r, k) == Lookup(customs, k)
    ensures Keys(r) == WithoutId(Keys(customs), id)
  {
    if customs == [] then []
    else
      var rest := RemoveEntry(customs[1..], id);
      assert Keys(customs) == [customs[0].0] + Keys(customs[1..]);
      if customs[0].0 == id then rest
      else
        assert Keys([customs[0]] + rest) == [customs[0].0] + Keys(rest);
        [customs[0]] + rest
  }

  /**
   * `parseFloat(customAmounts[id] || '0')` as the submission reads it: a
   * missing or empty entry is 0, and None marks a value it refuses (not a
   * number, or negative).
   */
  function CustomShare(customs: CustomAmounts, id: Id): (r: Option<Cents>)
    ensures r.Some? ==> r.value >= 0
  {
    match Lookup(customs, id)
    case None => Some(0)
    case Some(Blank) => Some(0)
    case Some(Num(c)) => if c < 0 then None else Some(c)
    case Some(Invalid) => None
  }

  datatype CustomResult = InvalidFor(participantId: Id) | Splits(splits: seq<ExpenseSplit>)

  /**
   * The custom splits of the selected participants in selection order, or
   * the first selected participant whose amount is refused.
   */
  function CustomSplits(selected: seq<Id>, customs: CustomAmounts): (r: CustomResult)
    ensures r.Splits? <==> forall i :: 0 <= i < |selected| ==> CustomShare(customs, selected[i]).Some?
    ensures r.Splits? ==> |r.splits| == |selected| && forall i :: 0 <= i < |selected| ==>
      r.splits[i] == ExpenseSplit(selected[i], CustomShare(customs, selected[i]).value, false)
    ensures r.InvalidFor? ==> r.participantId in selected && CustomShare(customs, r.participantId).None?
  {
    if selected == [] then Splits([])
    else
      var init, id := selected[..|selected| - 1], selected[|selected| - 1];
      match CustomSplits(init, customs)
      case InvalidFor(first) => InvalidFor(first)
      case Splits(splits) =>
        match CustomShare(customs, id)
        case None => InvalidFor(id)
        case Some(c) => Splits(splits + [ExpenseSplit(id, c, false)])
  }

  /**
   * The splits a submission builds: calculateEqualSplits as written, or the
   * custom amounts of the selected participants.
   */
  function SplitsFor(amount: Cents, splitEqually: bool, selected: seq<Id>, customs: CustomAmounts): (r: CustomResult)
    ensures splitEqually ==> r.Splits?
    ensures r.Splits? ==> |r.splits| == |selected| && forall i :: 0 <= i < |selected| ==>
      r.splits[i].participantId == selected[i] && r.splits[i].isEqual == splitEqually
    ensures !splitEqually ==> (r.Splits? <==> forall i :: 0 <= i < |selected| ==> CustomShare(customs, selected[i]).Some?)
    ensures splitEqually && selected != [] ==> (SplitsTotal(r.splits) == amount <==> Residual(amount, |selected|) >= 0)
  {
    if splitEqually then
      if selected == [] then Splits([])
      else if Residual(amount, |selected|) >= 0 then
        AsWrittenSumWhenResidualNonNegative(amount, selected);
        Splits(EqualSplitsAsWritten(amount, selected))
      else
        AsWrittenOverchargesWhenResidualNegative(amount, selected);
        Splits(EqualSplitsAsWritten(amount, selected))
    else CustomSplits(selected, customs)
  }

  /**
   * The custom-split loop of handleSubmit: the selected participants' custom
   * amounts as splits, summed as they are collected, stopping at the first
   * amount that is refused.
   */
  method CollectCustomSplits(selected: seq<Id>, customs: CustomAmounts) returns (r: CustomResult, totalCustom: Cents)
    ensures r == CustomSplits(selected, customs)
    ensures r.Splits? ==> totalCustom == SplitsTotal(r.splits)
  {
    totalCustom := 0;
    var customSplits := [];
    for i := 0 to |selected|
      invariant CustomSplits(selected[..i], customs) == Splits(customSplits)
      invariant totalCustom == SplitsTotal(customSplits)
    {
      var participantId := selected[i];
      assert selected[..i + 1][..i] == selected[..i];
      var customAmount := CustomShare(customs, participantId);
      if customAmount.None? {
        CustomSplitsKeepsFirstInvalid(selected, customs, i + 1, |selected|);
        assert selected[..|selected|] == selected;
        return InvalidFor(participantId), totalCustom;
      }
      totalCustom := totalCustom + customAmount.value;
      customSplits := customSplits + [ExpenseSplit(participantId, customAmount.value, false)];
      assert customSplits[..|customSplits| - 1] == customSplits[..i];
    }
    assert selected[..|selected|] == selected;
    r := Splits(customSplits);
  }

  /** The outcome of a submission with the given field values. */
  function Submission(description: string, amount: Input, paidBy: Id, splitEqually: bool,
                      selected: seq<Id>, customs: CustomAmounts, newId: Id): (r: SubmitOutcome)
    ensures r == Rejected(MissingDescription) <==> AllWhitespace(description)
    ensures r == Rejected(InvalidAmount) <==> !AllWhitespace(description) && !(amount.Num? && amount.cents > 0)
    ensures r == Rejected(NoParticipantsSelected) <==>
      !AllWhitespace(description) && amount.Num? && amount.cents > 0 && selected == []
    ensures (r.Rejected? && r.reason.InvalidCustomAmount?) <==>
      && !AllWhitespace(description) && amount.Num? && amount.cents > 0 && selected != []
      && SplitsFor(amount.cents, splitEqually, selected, customs).InvalidFor?
    ensures r == Rejected(CustomTotalMismatch) <==>
      && !AllWhitespace(description) && amount.Num? && amount.cents > 0 && selected != [] && !splitEqually
      && SplitsFor(amount.cents, splitEqually, selected, customs).Splits?
      && SplitsTotal(SplitsFor(amount.cents, splitEqually, selected, customs).splits) != amount.cents
    ensures r.Added? ==>
      && r.expense.id == newId && r.expense.description == Trim(description) && r.expense.description != []
      && r.expense.paidBy == paidBy && amount.Num? && r.expense.amount == amount.cents > 0 && selected != []
      && SplitsFor(amount.cents, splitEqually, selected, customs) == Splits(r.expense.splits)
      && (!splitEqually ==> SplitsTotal(r.expense.splits) == amount.cents)
  {
    TrimBlank(description);
    if Trim(description) == [] then Rejected(MissingDescription)
    else if !amount.Num? || amount.cents <= 0 then Rejected(InvalidAmount)
    else if selected == [] then Rejected(NoParticipantsSelected)
    else
      match SplitsFor(amount.cents, splitEqually, selected, customs)
      case InvalidFor(id) => Rejected(InvalidCustomAmount(id))
      case Splits(s) =>
        if !splitEqually && SplitsTotal(s) != amount.cents then Rejected(CustomTotalMismatch)
        else Added(Expense(newId, Trim(description), amount.cents, paidBy, s))
  }

  /** `parseFloat(value) || 0` for one typed custom amount. */
  function AllocatedValue(v: Input): Cents
  {
    if v.Num? then v.cents else 0
  }

  /** The custom amounts summed in entry order, entries that are not numbers counting 0. */
  function Allocated(customs: CustomAmounts): Cents
  {
    if customs == [] then 0 else Allocated(customs[..|customs| - 1]) + AllocatedValue(customs[|customs| - 1].1)
  }

  /**
   * calculateRemainingAmount: 0 when splitting equally or when the amount is
   * not a number; otherwise the amount (0 when empty) less the allocated sum.
   */
  function RemainingAmount(splitEqually: bool, amount: Input, customs: CustomAmounts): Cents
  {
    if splitEqually then 0
    else match amount
      case Invalid => 0
      case Blank => 0 - Allocated(customs)
      case Num(c) => c - Allocated(customs)
  }

  /** toggleParticipantSelection on the selection: a selected id is taken out, another one appended. */
  function Toggled(selected: seq<Id>, id: Id): (r: seq<Id>)
    ensures forall x :: x in r <==> if x == id then id !in selected else x in selected
    ensures NoDuplicates(selected) ==> NoDuplicates(r)
  {
    if id in selected then WithoutId(selected, id) else selected + [id]
  }

  /** Toggling an unselected participant twice gives back the selection. */
  lemma ToggleTwice(selected: seq<Id>, id: Id)
    requires id !in selected
    ensures Toggled(Toggled(selected, id), id) == selected
  {
    var once := selected + [id];
    assert id in once;
    WithoutIdAppended(selected, id);
  }

  lemma {:induction false} WithoutIdAppended(selected: seq<Id>, id: Id)
    requires id !in selected
    ensures WithoutId(selected + [id], id) == selected
  {
    if selected != [] {
      assert (selected + [id])[1..] == selected[1..] + [id];
      WithoutIdAppended(selected[1..], id);
      assert selected == [selected[0]] + selected[1..];
    } else {
      assert [id][1..] == [];
    }
  }

  // ---------------------------------------------------------------------
  // What a successful submission produces

  /**
   * An added expense has a trimmed, non-blank description, a positive
   * amount, and one split per selected participant in selection order,
   * marked equal exactly in equal mode, none of them negative. Its splits add
   * up to its amount exactly when it was split by hand or the equal share
   * did not round up: the equal split as written overcharges otherwise.
   */
  lemma SubmittedExpenseIsConsistent(description: string, amount: Input, paidBy: Id, splitEqually: bool,
                                     selected: seq<Id>, customs: CustomAmounts, newId: Id)
    requires Submission(description, amount, paidBy, splitEqually, selected, customs, newId).Added?
    ensures var e := Submission(description, amount, paidBy, splitEqually, selected, customs, newId).expense;
      && e.description == Trim(description) && e.description != []
      && e.amount > 0 && e.paidBy == paidBy
      && |e.splits| == |selected| > 0
      && (forall i :: 0 <= i < |selected| ==>
            e.splits[i].participantId == selected[i] && e.splits[i].isEqual == splitEqually && e.splits[i].amount >= 0)
      && (SplitsTotal(e.splits) == e.amount <==> !splitEqually || Residual(e.amount, |selected|) >= 0)
  {
    var e := Submission(description, amount, paidBy, splitEqually, selected, customs, newId).expense;
    if splitEqually {
      assert e.splits == EqualSplitsAsWritten(amount.cents, selected);
      if Residual(amount.cents, |selected|) >= 0 {
        AsWrittenSumWhenResidualNonNegative(amount.cents, selected);
      } else {
        AsWrittenOverchargesWhenResidualNegative(amount.cents, selected);
      }
      AsWrittenNonNegative(amount.cents, selected);
      assert forall i :: 0 <= i < |selected| ==> e.splits[i] in e.splits;
    } else {
      assert e.splits == CustomSplits(selected, customs).splits;
      forall i | 0 <= i < |selected| ensures e.splits[i].amount >= 0 {
        assert CustomShare(customs, selected[i]).Some?;
      }
    }
  }

  /** The references of an added expense are those of the form: its payer and the selected participants. */
  lemma SubmittedExpenseReferences(participants: seq<Participant>, e: Expense, paidBy: Id, selected: seq<Id>)
    requires paidBy in ParticipantIds(participants)
    requires forall id :: id in selected ==> id in ParticipantIds(participants)
    requires e.paidBy == paidBy && |e.splits| == |selected|
    requires forall i :: 0 <= i < |selected| ==> e.splits[i].participantId == selected[i]
    ensures forall s :: s in e.splits ==> s.participantId in ParticipantIds(participants)
  {
    forall s | s in e.splits ensures s.participantId in ParticipantIds(participants) {
      var i :| 0 <= i < |e.splits| && e.splits[i] == s;
      assert selected[i] in selected;
    }
  }

  /**
   * Adding a submitted expense to a well-formed bill, with the payer and the
   * selected participants among the bill's participants, keeps the bill well
   * formed exactly when the expense was split by hand or its equal share did
   * not round up.
   */
  lemma SubmittedExpenseKeepsBillWellFormed(participants: seq<Participant>, expenses: seq<Expense>,
                                            description: string, amount: Input, paidBy: Id, splitEqually: bool,
                                            selected: seq<Id>, customs: CustomAmounts, newId: Id)
    requires WellFormedBill(participants, expenses)
    requires paidBy in ParticipantIds(participants)
    requires forall id :: id in selected ==> id in ParticipantIds(participants)
    requires Submission(description, amount, paidBy, splitEqually, selected, customs, newId).Added?
    ensures WellFormedBill(participants, expenses + [Submission(description, amount, paidBy, splitEqually, selected, customs, newId).expense])
      <==> !splitEqually || Residual(amount.cents, |selected|) >= 0
  {
    var e := Submission(description, amount, paidBy, splitEqually, selected, customs, newId).expense;
    SubmittedExpenseIsConsistent(description, amount, paidBy, splitEqually, selected, customs, newId);
    SubmittedExpenseReferences(participants, e, paidBy, selected);
    assert e in expenses + [e];
  }

  /**
   * With the corrected equal split in place of the one as written, every
   * added expense keeps a well-formed bill well formed.
   */
  lemma CorrectedSplitKeepsBillWellFormed(participants: seq<Participant>, expenses: seq<Expense>,
                                          description: string, amount: Input, paidBy: Id, splitEqually: bool,
                                          selected: seq<Id>, customs: CustomAmounts, newId: Id)
    requires WellFormedBill(participants, expenses)
    requires paidBy in ParticipantIds(participants)
    requires forall id :: id in selected ==> id in ParticipantIds(participants)
    requires Submission(description, amount, paidBy, splitEqually, selected, customs, newId).Added?
    ensures var e := Submission(description, amount, paidBy, splitEqually, selected, customs, newId).expense;
      var fixed := if splitEqually then e.(splits := EqualSplits.EqualSplits(e.amount, selected)) else e;
      WellFormedBill(participants, expenses + [fixed])
  {
    var e := Submission(description, amount, paidBy, splitEqually, selected, customs, newId).expense;
    SubmittedExpenseIsConsistent(description, amount, paidBy, splitEqually, selected, customs, newId);
    var fixed := if splitEqually then e.(splits := EqualSplits.EqualSplits(e.amount, selected)) else e;
    if splitEqually {
      EqualSplitsSumToAmount(e.amount, selected);
    }
    SubmittedExpenseReferences(participants, fixed, paidBy, selected);
  }

  // ---------------------------------------------------------------------
  // The remaining amount agrees with the submission's sum check

  /** What the submission reads for `id` when none of the selected amounts is refused. */
  function ShareOf(customs: CustomAmounts, id: Id): Cents
  {
    match Lookup(customs, id)
    case Some(Num(c)) => c
    case _ => 0
  }

  lemma {:induction false} AllocatedIsSumOverKeys(customs: CustomAmounts)
    requires NoDuplicates(Keys(customs))
    ensures Allocated(customs) == SumOver(Keys(customs), k => ShareOf(customs, k))
  {
    if customs != [] {
      var init, last := customs[..|customs| - 1], customs[|customs| - 1];
      assert Keys(init) == Keys(customs)[..|customs| - 1];
      assert NoDuplicates(Keys(init));
      AllocatedIsSumOverKeys(init);
      forall k | k in Keys(init) ensures ShareOf(init, k) == ShareOf(customs, k) {
        LookupInPrefix(customs, k);
      }
      SumOverSame(Keys(init), k => ShareOf(init, k), k => ShareOf(customs, k));
      LookupLast(customs);
    }
  }

  /** With unique keys, an entry other than the last one is found in the entries before the last. */
  lemma LookupInPrefix(customs: CustomAmounts, k: Id)
    requires customs != [] && NoDuplicates(Keys(customs))
    requires k in Keys(customs[..|customs| - 1])
    ensures Lookup(customs[..|customs| - 1], k) == Lookup(customs, k)
  {
    var init := customs[..|customs| - 1];
    var i :| 0 <= i < |init| && Keys(init)[i] == k;
    LookupAt(customs, i);
    LookupAt(init, i);
    assert Keys(init)[i] == Keys(customs)[i];
    assert NoDuplicates(Keys(init)) by {
      assert forall a :: 0 <= a < |init| ==> Keys(init)[a] == Keys(customs)[a];
    }
  }

  /** With unique keys, the last entry is found. */
  lemma LookupLast(customs: CustomAmounts)
    requires customs != [] && NoDuplicates(Keys(customs))
    ensures Lookup(customs, customs[|customs| - 1].0) == Some(customs[|customs| - 1].1)
  {
    LookupAt(customs, |customs| - 1);
  }

  /** With unique keys, looking up the key of entry `i` finds entry `i`. */
  lemma {:induction false} LookupAt(customs: CustomAmounts, i: nat)
    requires i < |customs| && NoDuplicates(Keys(customs))
    ensures Lookup(customs, customs[i].0) == Some(customs[i].1)
  {
    if i > 0 {
      assert Keys(customs)[0] != Keys(customs)[i];
      var tail := customs[1..];
      assert Keys(tail) == Keys(customs)[1..];
      assert NoDuplicates(Keys(tail));
      LookupAt(tail, i - 1);
    }
  }

  lemma {:induction false} CustomSplitsTotal(selected: seq<Id>, customs: CustomAmounts)
    requires CustomSplits(selected, customs).Splits?
    ensures SplitsTotal(CustomSplits(selected, customs).splits) == SumOver(selected, k => ShareOf(customs, k))
  {
    if selected != [] {
      var init := selected[..|selected| - 1];
      CustomSplitsTotal(init, customs);
      var s := CustomSplits(selected, customs).splits;
      assert s[..|s| - 1] == CustomSplits(init, customs).splits;
    }
  }

  /**
   * While every custom entry belongs to a selected participant (deselecting
   * deletes the entry) and no selected amount is refused, the remaining
   * amount is 0 exactly when the submission's sum check passes.
   */
  lemma RemainingMatchesSumCheck(amount: Cents, selected: seq<Id>, customs: CustomAmounts)
    requires NoDuplicates(selected) && NoDuplicates(Keys(customs))
    requires forall k :: k in Keys(customs) ==> k in selected
    requires CustomSplits(selected, customs).Splits?
    ensures RemainingAmount(false, Num(amount), customs) == amount - SplitsTotal(CustomSplits(selected, customs).splits)
    ensures RemainingAmount(false, Num(amount), customs) == 0 <==> SplitsTotal(CustomSplits(selected, customs).splits) == amount
  {
    var f := k => ShareOf(customs, k);
    AllocatedIsSumOverKeys(customs);
    CustomSplitsTotal(selected, customs);
    forall x | x in selected && x !in Keys(customs) ensures f(x) == 0 {
    }
    SumOverSubset(selected, Keys(customs), f);
  }

  /** A refused amount stays the first refused one as more participants are read. */
  lemma {:induction false} CustomSplitsKeepsFirstInvalid(selected: seq<Id>, customs: CustomAmounts, i: nat, j: nat)
    requires i <= j <= |selected|
    requires CustomSplits(selected[..i], customs).InvalidFor?
    ensures CustomSplits(selected[..j], customs) == CustomSplits(selected[..i], customs)
    decreases j - i
  {
    if i < j {
      CustomSplitsKeepsFirstInvalid(selected, customs, i, j - 1);
      var prefix := selected[..j];
      assert prefix != [] && prefix[..|prefix| - 1] == selected[..j - 1];
      assert CustomSplits(prefix[..|prefix| - 1], customs).InvalidFor?;
    }
  }

  // ---------------------------------------------------------------------
  // The form's state

  class Form {
    var description: string
    var amount: Input
    var paidBy: Id
    var splitEqually: bool
    var selectedParticipants: seq<Id>
    var customAmounts: CustomAmounts

    /** The initial fields. */
    constructor()
      ensures description == "" && amount == Blank && paidBy == "" && splitEqually
      ensures selectedParticipants == [] && customAmounts == []
    {
      description := "";
      amount := Blank;
      paidBy := "";
      splitEqually := true;
      selectedParticipants := [];
      customAmounts := [];
    }

    /** The selection has no repetitions and only selected participants have custom amounts. */
    predicate Valid()
      reads this
    {
      && NoDuplicates(selectedParticipants)
      && NoDuplicates(Keys(customAmounts))
      && forall k :: k in Keys(customAmounts) ==> k in selectedParticipants
    }

    /** resetForm: empty texts, the first participant as payer, equal mode, nothing selected. */
    method ResetForm(participants: seq<Participant>)
      modifies this
      ensures description == "" && amount == Blank && splitEqually
      ensures paidBy == if participants != [] then participants[0].id else ""
      ensures selectedParticipants == [] && customAmounts == []
      ensures Valid()
    {
      description := "";
      amount := Blank;
      paidBy := if participants != [] then participants[0].id else "";
      splitEqually := true;
      selectedParticipants := [];
      customAmounts := [];
    }

    /**
     * handleSubmit: checks the fields in order; on a refusal nothing is added
     * and the fields are kept, otherwise the expense (with a fresh id given
     * by the caller) is returned for the bill and the form is reset.
     */
    method HandleSubmit(participants: seq<Participant>, newId: Id) returns (outcome: SubmitOutcome)
      modifies this
      ensures outcome == Submission(old(description), old(amount), old(paidBy), old(splitEqually),
                                    old(selectedParticipants), old(customAmounts), newId)
      ensures outcome.Rejected? ==>
        description == old(description) && amount == old(amount) && paidBy == old(paidBy)
        && splitEqually == old(splitEqually) && selectedParticipants == old(selectedParticipants)
        && customAmounts == old(customAmounts)
      ensures outcome.Added? ==>
        description == "" && amount == Blank && splitEqually
        && paidBy == (if participants != [] then participants[0].id else "")
        && selectedParticipants == [] && customAmounts == []
    {
      TrimBlank(description);
      var trimmed := Trim(description);
      if trimmed == [] {
        return Rejected(MissingDescription);
      }
      if !amount.Num? || amount.cents <= 0 {
        return Rejected(InvalidAmount);
      }
      var amountValue := amount.cents;
      if |selectedParticipants| == 0 {
        return Rejected(NoParticipantsSelected);
      }
      var splits: seq<ExpenseSplit>;
      if splitEqually {
        splits := CalculateEqualSplitsAsWritten(amountValue, selectedParticipants);
      } else {
        var custom, totalCustom := CollectCustomSplits(selectedParticipants, customAmounts);
        if custom.InvalidFor? {
          return Rejected(InvalidCustomAmount(custom.participantId));
        }
        if totalCustom != amountValue {
          return Rejected(CustomTotalMismatch);
        }
        splits := custom.splits;
      }
      outcome := Added(Expense(newId, trimmed, amountValue, paidBy, splits));
      ResetForm(participants);
    }

    /** toggleParticipantSelection: deselecting also deletes the participant's custom amount. */
    method ToggleParticipantSelection(id: Id)
      modifies this
      ensures selectedParticipants == Toggled(old(selectedParticipants), id)
      ensures customAmounts == if id in old(selectedParticipants) then RemoveEntry(old(customAmounts), id) else old(customAmounts)
      ensures description == old(description) && amount == old(amount) && paidBy == old(paidBy) && splitEqually == old(splitEqually)
      ensures old(Valid()) ==> Valid()
    {
      if id in selectedParticipants {
        selectedParticipants := WithoutId(selectedParticipants, id);
        customAmounts := RemoveEntry(customAmounts, id);
      } else {
        selectedParticipants := selectedParticipants + [id];
      }
    }

    /**
     * handleSelectAll: when as many ids are selected as there are
     * participants, clears the selection and the custom amounts; otherwise
     * selects every participant in participant order and keeps the amounts.
     */
    method HandleSelectAll(participants: seq<Participant>)
      modifies this
      ensures if |old(selectedParticipants)| == |participants|
              then selectedParticipants == [] && customAmounts == []
              else selectedParticipants == ParticipantIds(participants) && customAmounts == old(customAmounts)
      ensures description == old(description) && amount == old(amount) && paidBy == old(paidBy) && splitEqually == old(splitEqually)
      ensures (old(Valid()) && NoDuplicates(ParticipantIds(participants))
               && forall x :: x in old(selectedParticipants) ==> x in ParticipantIds(participants)) ==> Valid()
    {
      if |selectedParticipants| == |participants| {
        selectedParticipants := [];
        customAmounts := [];
      } else {
        selectedParticipants := ParticipantIds(participants);
      }
    }

    /** Typing a custom amount for a participant. */
    method SetCustomAmount(id: Id, value: Input)
      modifies this
      ensures customAmounts == SetEntry(old(customAmounts), id, value)
      ensures selectedParticipants == old(selectedParticipants)
      ensures description == old(description) && amount == old(amount) && paidBy == old(paidBy) && splitEqually == old(splitEqually)
      ensures old(Valid()) && id in selectedParticipants ==> Valid()
    {
      customAmounts := SetEntry(customAmounts, id, value);
    }
  }
}
