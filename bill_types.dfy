/**
 * The records of a bill: participants, expenses with their splits, and
 * settlements. Money is kept as a whole number of cents, so the two-decimal
 * rounding of the program (`toFixed(2)`) is exact here.
 */
module BillTypes {

  /** Participant and expense ids are opaque strings supplied by the caller. */
  type Id = string

  /** An amount of money in cents (may be negative for balances). */
  type Cents = int

  datatype Option<T> = None | Some(value: T)

  datatype Participant = Participant(id: Id, name: string)

  /** One participant's share of one expense; `isEqual` records whether it was computed by equal division. */
  datatype ExpenseSplit = ExpenseSplit(participantId: Id, amount: Cents, isEqual: bool)

  /** `paidBy` is a participant id, or "" when no payer was chosen. */
  datatype Expense = Expense(id: Id, description: string, amount: Cents, paidBy: Id, splits: seq<ExpenseSplit>)

  /** A payment of `amount` from the debtor `from` to the creditor `to`. */
  datatype Settlement = Settlement(from: Id, to: Id, amount: Cents)

  /** Sum of the split amounts, accumulated left to right. */
  function SplitsTotal(splits: seq<ExpenseSplit>): Cents
  {
    if splits == [] then 0 else SplitsTotal(splits[..|splits| - 1]) + splits[|splits| - 1].amount
  }

  /** The ids of the participants, in order (`participants.map(p => p.id)`). */
  function ParticipantIds(participants: seq<Participant>): (ids: seq<Id>)
    ensures |ids| == |participants|
    ensures forall i :: 0 <= i < |participants| ==> ids[i] == participants[i].id
  {
    if participants == [] then [] else [participants[0].id] + ParticipantIds(participants[1..])
  }

  lemma ParticipantIdsMembership(participants: seq<Participant>, id: Id)
    ensures id in ParticipantIds(participants) <==> exists p :: p in participants && p.id == id
  {
    var ids := ParticipantIds(participants);
    if id in ids {
      var i :| 0 <= i < |ids| && ids[i] == id;
      assert participants[i] in participants;
    }
  }

  predicate NoDuplicates<T(==)>(s: seq<T>)
  {
    forall i, j :: 0 <= i < j < |s| ==> s[i] != s[j]
  }

  /**
   * The elements of `s` without repetitions, each at the place of its first
   * occurrence: the key order of a JavaScript object filled from `s`.
   */
  function Distinct(s: seq<Id>): (r: seq<Id>)
    ensures forall x :: x in r <==> x in s
    ensures NoDuplicates(r)
    ensures |r| <= |s|
  {
    if s == [] then []
    else
      var r := Distinct(s[..|s| - 1]);
      assert forall x :: x in s <==> x in s[..|s| - 1] || x == s[|s| - 1];
      if s[|s| - 1] in r then r else r + [s[|s| - 1]]
  }

  /** The distinct participant ids in first-occurrence order. */
  function Ids(participants: seq<Participant>): (ids: seq<Id>)
    ensures NoDuplicates(ids)
    ensures forall id :: id in ids <==> id in ParticipantIds(participants)
  {
    Distinct(ParticipantIds(participants))
  }

  /** Sum of `f` over `ids`, accumulated left to right. */
  function SumOver(ids: seq<Id>, f: Id -> int): int
  {
    if ids == [] then 0 else SumOver(ids[..|ids| - 1], f) + f(ids[|ids| - 1])
  }

  /** A function that is 0 on `ids` sums to 0 over `ids`. */
  lemma {:induction false} SumOverZero(ids: seq<Id>, f: Id -> int)
    requires forall x :: x in ids ==> f(x) == 0
    ensures SumOver(ids, f) == 0
  {
    if ids != [] {
      SumOverZero(ids[..|ids| - 1], f);
    }
  }

  /** A sum over `ids` of a pointwise sum is the sum of the two sums. */
  lemma {:induction false} SumOverAdd(ids: seq<Id>, f: Id -> int, g: Id -> int, h: Id -> int)
    requires forall x :: x in ids ==> h(x) == f(x) + g(x)
    ensures SumOver(ids, h) == SumOver(ids, f) + SumOver(ids, g)
  {
    if ids != [] {
      SumOverAdd(ids[..|ids| - 1], f, g, h);
    }
  }

  /** Two functions that agree on `ids` have the same sum over `ids`. */
  lemma {:induction false} SumOverSame(ids: seq<Id>, f: Id -> int, g: Id -> int)
    requires forall x :: x in ids ==> f(x) == g(x)
    ensures SumOver(ids, f) == SumOver(ids, g)
  {
    if ids != [] {
      SumOverSame(ids[..|ids| - 1], f, g);
    }
  }

  /**
   * Summing a function that is `a` at `x` and 0 elsewhere over a list without
   * repetitions gives `a` when `x` is listed and 0 otherwise.
   */
  lemma {:induction false} SumOverSingle(ids: seq<Id>, f: Id -> int, x: Id, a: int)
    requires NoDuplicates(ids)
    requires forall y :: y in ids ==> f(y) == if y == x then a else 0
    ensures SumOver(ids, f) == if x in ids then a else 0
  {
    if ids != [] {
      var init := ids[..|ids| - 1];
      assert NoDuplicates(init);
      assert forall y :: y in init ==> y in ids;
      SumOverSingle(init, f, x, a);
      assert x in ids <==> x in init || x == ids[|ids| - 1];
      assert x == ids[|ids| - 1] ==> x !in init;
    }
  }

  /** Taking one element out of a list takes its value out of the sum. */
  lemma {:induction false} SumOverRemoveAt(ids: seq<Id>, i: nat, f: Id -> int)
    requires i < |ids|
    ensures SumOver(ids, f) == SumOver(ids[..i] + ids[i + 1..], f) + f(ids[i])
  {
    if i < |ids| - 1 {
      var init := ids[..|ids| - 1];
      SumOverRemoveAt(init, i, f);
      var rest := ids[..i] + ids[i + 1..];
      assert rest[..|rest| - 1] == init[..i] + init[i + 1..];
      assert rest[|rest| - 1] == ids[|ids| - 1];
    } else {
      assert ids[..i] + ids[i + 1..] == ids[..|ids| - 1];
    }
  }

  /**
   * Summing over a list without repetitions gives the same as summing over
   * any part of it outside which the function is 0.
   */
  lemma {:induction false} SumOverSubset(big: seq<Id>, small: seq<Id>, f: Id -> int)
    requires NoDuplicates(big) && NoDuplicates(small)
    requires forall x :: x in small ==> x in big
    requires forall x :: x in big && x !in small ==> f(x) == 0
    ensures SumOver(big, f) == SumOver(small, f)
    decreases |big|
  {
    if big == [] {
      SumOverZero(small, f);
    } else {
      var init, x := big[..|big| - 1], big[|big| - 1];
      assert NoDuplicates(init);
      assert forall y :: y in init ==> y in big && y != x;
      if x !in small {
        SumOverSubset(init, small, f);
      } else {
        var i :| 0 <= i < |small| && small[i] == x;
        var rest := small[..i] + small[i + 1..];
        SumOverRemoveAt(small, i, f);
        RemoveAtKeepsOthers(small, i);
        forall y | y in rest ensures y in init {
          assert y in small && y != x;
          var k :| 0 <= k < |big| && big[k] == y;
          assert k < |big| - 1 && init[k] == y;
        }
        SumOverSubset(init, rest, f);
      }
    }
  }

  /** Removing the element at `i` from a list without repetitions leaves exactly the other elements, still without repetitions. */
  lemma RemoveAtKeepsOthers(s: seq<Id>, i: nat)
    requires i < |s| && NoDuplicates(s)
    ensures forall y :: y in s[..i] + s[i + 1..] <==> y in s && y != s[i]
    ensures NoDuplicates(s[..i] + s[i + 1..])
  {
    var rest := s[..i] + s[i + 1..];
    forall y | y in s && y != s[i] ensures y in rest {
      var k :| 0 <= k < |s| && s[k] == y;
      if k < i { assert rest[k] == y; } else { assert rest[k - 1] == y; }
    }
    forall a, b | 0 <= a < b < |rest| ensures rest[a] != rest[b] {
      var a', b' := if a < i then a else a + 1, if b < i then b else b + 1;
      assert rest[a] == s[a'] && rest[b] == s[b'];
    }
  }
}
