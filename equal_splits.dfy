/**
 * Equal division of an expense among the selected participants: every share
 * is the amount divided by the head count, rounded to the cent, and the
 * cents left over by the rounding go one each to the first participants.
 *
 * Two versions are kept. The one in the code as written only hands out a
 * positive residual, so a share that rounded up leaves the split summing to
 * more than the amount; the corrected one also takes back a negative
 * residual, one cent each from the first participants, and always adds up.
 * The expense form calls the one as written.
 */
module EqualSplits {
  import opened BillTypes

  /**
   * `(amount / n).toFixed(2)` in cents: the quotient rounded to the nearest
   * cent, halves rounded away from zero.
   */
  function RoundedShare(amount: Cents, n: nat): Cents
    requires n > 0
  {
    if amount >= 0 then (2 * amount + n) / (2 * n) else -((2 * -amount + n) / (2 * n))
  }

  /** `remainingCents`: what the rounded shares leave over (positive) or take too much (negative). */
  function Residual(amount: Cents, n: nat): int
    requires n > 0
  {
    amount - RoundedShare(amount, n) * n
  }

  /** The rounded share is the nearest cent: the residual is at most half a share per head either way. */
  lemma ResidualBounds(amount: Cents, n: nat)
    requires n > 0
    ensures -(n as int) <= 2 * Residual(amount, n) <= n
  {
    var a := if amount >= 0 then amount else -amount;
    var q := (2 * a + n) / (2 * n);
    var m := (2 * a + n) % (2 * n);
    assert 2 * a + n == 2 * n * q + m && 0 <= m < 2 * n;
    assert 2 * (a - q * n) == m - n;
  }

  // ---------------------------------------------------------------------
  // As written: only a positive residual is handed out

  /** The cent added to the share at position `i` by the code as written: one for each of the first `residual` participants. */
  function AdjustmentAsWritten(residual: int, i: nat): int
  {
    if i < residual then 1 else 0
  }

  /** The splits calculateEqualSplits returns, as written. */
  function EqualSplitsAsWritten(amount: Cents, selected: seq<Id>): (r: seq<ExpenseSplit>)
    ensures |r| == |selected|
    ensures forall i :: 0 <= i < |r| ==> r[i].participantId == selected[i] && r[i].isEqual
  {
    if selected == [] then []
    else
      var n := |selected|;
      seq(n, i requires 0 <= i < n =>
        ExpenseSplit(selected[i], RoundedShare(amount, n) + AdjustmentAsWritten(Residual(amount, n), i), true))
  }

  /**
   * calculateEqualSplits as written: the share is computed once and a
   * counter of remaining cents is decremented while it is positive.
   */
  method CalculateEqualSplitsAsWritten(amount: Cents, selected: seq<Id>) returns (splits: seq<ExpenseSplit>)
    ensures splits == EqualSplitsAsWritten(amount, selected)
  {
    if |selected| == 0 {
      return [];
    }
    var n := |selected|;
    var equalAmount := RoundedShare(amount, n);
    var remainingCents := amount - equalAmount * n;
    ghost var residual := remainingCents;
    splits := [];
    for i := 0 to n
      invariant |splits| == i
      invariant remainingCents == if residual > i then residual - i else if residual > 0 then 0 else residual
      invariant forall k :: 0 <= k < i ==>
        splits[k] == ExpenseSplit(selected[k], equalAmount + AdjustmentAsWritten(residual, k), true)
    {
      var adjustedAmount := equalAmount;
      if remainingCents > 0 {
        adjustedAmount := adjustedAmount + 1;
        remainingCents := remainingCents - 1;
      }
      splits := splits + [ExpenseSplit(selected[i], adjustedAmount, true)];
    }
  }

  /** A non-negative amount is never split into negative shares as written either. */
  lemma AsWrittenNonNegative(amount: Cents, selected: seq<Id>)
    requires amount >= 0
    ensures forall s :: s in EqualSplitsAsWritten(amount, selected) ==> s.amount >= 0
  {
    if selected != [] {
      assert RoundedShare(amount, |selected|) >= 0;
    }
  }

  /** With a residual of at least 0 the splits as written add up to the amount. */
  lemma AsWrittenSumWhenResidualNonNegative(amount: Cents, selected: seq<Id>)
    requires selected != [] && Residual(amount, |selected|) >= 0
    ensures SplitsTotal(EqualSplitsAsWritten(amount, selected)) == amount
  {
    var n := |selected|;
    var s := EqualSplitsAsWritten(amount, selected);
    ResidualBounds(amount, n);
    PrefixTotal(s, RoundedShare(amount, n), Residual(amount, n), false, n);
    assert s[..n] == s;
  }

  /**
   * With a negative residual (the share rounded up) every split as written
   * is the rounded share and together they exceed the amount.
   */
  lemma AsWrittenOverchargesWhenResidualNegative(amount: Cents, selected: seq<Id>)
    requires selected != [] && Residual(amount, |selected|) < 0
    ensures forall s :: s in EqualSplitsAsWritten(amount, selected) ==> s.amount == RoundedShare(amount, |selected|)
    ensures SplitsTotal(EqualSplitsAsWritten(amount, selected)) == amount - Residual(amount, |selected|) > amount
  {
    var n := |selected|;
    var s := EqualSplitsAsWritten(amount, selected);
    PrefixTotal(s, RoundedShare(amount, n), Residual(amount, n), false, n);
    assert s[..n] == s;
  }

  /** 2.00 among three: shares of 0.67 each, 2.01 in total. */
  lemma AsWrittenTwoDollarsAmongThree()
    ensures var splits := EqualSplitsAsWritten(200, ["a", "b", "c"]);
      && splits == [ExpenseSplit("a", 67, true), ExpenseSplit("b", 67, true), ExpenseSplit("c", 67, true)]
      && SplitsTotal(splits) == 201
  {
    var splits := EqualSplitsAsWritten(200, ["a", "b", "c"]);
    assert RoundedShare(200, 3) == 67 && Residual(200, 3) == -1;
    PrefixTotal(splits, 67, -1, false, 3);
    assert splits[..3] == splits;
  }

  // ---------------------------------------------------------------------
  // Corrected: a negative residual is taken back one cent at a time

  /** The cent added to or taken from the share at position `i`: the first `|residual|` participants absorb the residual. */
  function Adjustment(residual: int, i: nat): int
  {
    if i < residual then 1 else if i < -residual then -1 else 0
  }

  /** The equal splits with the residual distributed whatever its sign. */
  function EqualSplits(amount: Cents, selected: seq<Id>): (r: seq<ExpenseSplit>)
    ensures |r| == |selected|
    ensures forall i :: 0 <= i < |r| ==> r[i].participantId == selected[i] && r[i].isEqual
  {
    if selected == [] then []
    else
      var n := |selected|;
      seq(n, i requires 0 <= i < n =>
        ExpenseSplit(selected[i], RoundedShare(amount, n) + Adjustment(Residual(amount, n), i), true))
  }

  /** The corrected calculateEqualSplits: the counter also climbs back to 0 from below. */
  method CalculateEqualSplits(amount: Cents, selected: seq<Id>) returns (splits: seq<ExpenseSplit>)
    ensures splits == EqualSplits(amount, selected)
  {
    if |selected| == 0 {
      return [];
    }
    var n := |selected|;
    var equalAmount := RoundedShare(amount, n);
    var remainingCents := amount - equalAmount * n;
    ghost var residual := remainingCents;
    splits := [];
    for i := 0 to n
      invariant |splits| == i
      invariant remainingCents == if residual > i then residual - i else if -residual > i then residual + i else 0
      invariant forall k :: 0 <= k < i ==>
        splits[k] == ExpenseSplit(selected[k], equalAmount + Adjustment(residual, k), true)
    {
      var adjustedAmount := equalAmount;
      if remainingCents > 0 {
        adjustedAmount := adjustedAmount + 1;
        remainingCents := remainingCents - 1;
      } else if remainingCents < 0 {
        adjustedAmount := adjustedAmount - 1;
        remainingCents := remainingCents + 1;
      }
      splits := splits + [ExpenseSplit(selected[i], adjustedAmount, true)];
    }
  }

  /** The corrected splits always add up to exactly the amount. */
  lemma EqualSplitsSumToAmount(amount: Cents, selected: seq<Id>)
    requires selected != []
    ensures SplitsTotal(EqualSplits(amount, selected)) == amount
  {
    var n := |selected|;
    var s := EqualSplits(amount, selected);
    ResidualBounds(amount, n);
    PrefixTotal(s, RoundedShare(amount, n), Residual(amount, n), true, n);
    assert s[..n] == s;
  }

  /**
   * The corrected splits are fair: any two shares differ by at most one cent,
   * and the odd cents sit on a prefix of the selection.
   */
  lemma EqualSplitsFair(amount: Cents, selected: seq<Id>)
    ensures var s := EqualSplits(amount, selected);
      forall i, j :: 0 <= i < j < |s| ==> 0 <= s[i].amount - s[j].amount <= 1 || 0 <= s[j].amount - s[i].amount <= 1
    ensures var s := EqualSplits(amount, selected);
      forall i, j :: 0 <= i < j < |s| && s[j].amount != s[i].amount ==>
        (s[i].amount - s[j].amount) * Residual(amount, |s|) > 0
  {
    var s := EqualSplits(amount, selected);
    if s != [] {
      var n := |selected|;
      var base, r := RoundedShare(amount, n), Residual(amount, n);
      forall i, j | 0 <= i < j < |s|
        ensures 0 <= s[i].amount - s[j].amount <= 1 || 0 <= s[j].amount - s[i].amount <= 1
        ensures s[j].amount != s[i].amount ==> (s[i].amount - s[j].amount) * r > 0
      {
        assert s[i].amount == base + Adjustment(r, i) && s[j].amount == base + Adjustment(r, j);
      }
    }
  }

  /** When the share does not round up, the splits as written are the corrected ones. */
  lemma AsWrittenIsCorrectedWhenResidualNonNegative(amount: Cents, selected: seq<Id>)
    requires selected == [] || Residual(amount, |selected|) >= 0
    ensures EqualSplitsAsWritten(amount, selected) == EqualSplits(amount, selected)
  {
    if selected != [] {
      var a, c := EqualSplitsAsWritten(amount, selected), EqualSplits(amount, selected);
      forall i | 0 <= i < |selected| ensures a[i] == c[i] {
        assert AdjustmentAsWritten(Residual(amount, |selected|), i) == Adjustment(Residual(amount, |selected|), i);
      }
    }
  }

  /** A non-negative amount is never split into negative shares. */
  lemma EqualSplitsNonNegative(amount: Cents, selected: seq<Id>)
    requires amount >= 0
    ensures forall s :: s in EqualSplits(amount, selected) ==> s.amount >= 0
  {
    if selected != [] {
      var n := |selected|;
      var base := RoundedShare(amount, n);
      assert base >= 0;
      assert Residual(amount, n) < 0 ==> base * n > 0;
    }
  }

  // ---------------------------------------------------------------------
  // Totals of adjusted shares

  /** Sum of the adjustments of the first `k` shares. */
  function AdjustedCents(residual: int, corrected: bool, k: nat): int
  {
    if residual >= 0 then (if k < residual then k else residual)
    else if !corrected then 0
    else if k < -residual then -(k as int) else residual
  }

  /** The first `k` shares of a list of adjusted equal shares add up to `k` shares plus the adjustments handed out so far. */
  lemma {:induction false} PrefixTotal(s: seq<ExpenseSplit>, base: int, residual: int, corrected: bool, k: nat)
    requires k <= |s|
    requires forall i :: 0 <= i < |s| ==>
      s[i].amount == base + (if corrected then Adjustment(residual, i) else AdjustmentAsWritten(residual, i))
    ensures SplitsTotal(s[..k]) == k * base + AdjustedCents(residual, corrected, k)
  {
    if k > 0 {
      PrefixTotal(s, base, residual, corrected, k - 1);
      assert s[..k][..k - 1] == s[..k - 1];
    }
  }
}
