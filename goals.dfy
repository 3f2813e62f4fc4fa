/** The goals page: a ledger of savings goals and the transactions linked
    to them, the deposit transition, goal deletion, the aggregate totals
    and the per-goal progress percentage.

    Amounts are exact reals; the page's numbers are IEEE doubles, whose
    rounding is not modelled. */
module Goals {
  import opened Collections

  /** A savings goal: `current` is the amount saved so far, `target` the
      amount that completes it. */
  datatype Goal = Goal(id: int, name: string, current: real, target: real, color: string)

  /** A transaction as this page stores it; `goalId` links it to a goal. */
  datatype Transaction = Transaction(
    id: int, desc: string, category: string, value: real, date: string, goalId: Option<int>)

  /** The category of the transaction a deposit records. */
  const DepositCategory: string := "Investimento"

  /** The description of a deposit's transaction is this prefix followed by the goal's name. */
  const DepositPrefix: string := "Depósito: "

  // ---------------------------------------------------------------------
  // Crediting a goal

  /** `g` with `val` added to its saved amount when its id is `id`. */
  function CreditOne(g: Goal, id: int, val: real): Goal
  {
    if g.id == id then g.(current := g.current + val) else g
  }

  /** The goal list after a deposit of `val` into the goal(s) with id `id`. */
  function Credit(goals: seq<Goal>, id: int, val: real): (r: seq<Goal>)
    ensures |r| == |goals|
  {
    if goals == [] then [] else [CreditOne(goals[0], id, val)] + Credit(goals[1..], id, val)
  }

  /** Crediting adds `val` to the saved amount of every goal whose id matches,
      and leaves every other field and every other goal as it was. */
  lemma {:induction false} CreditAt(goals: seq<Goal>, id: int, val: real, k: int)
    requires 0 <= k < |goals|
    ensures Credit(goals, id, val)[k].id == goals[k].id
    ensures Credit(goals, id, val)[k].name == goals[k].name
    ensures Credit(goals, id, val)[k].target == goals[k].target
    ensures Credit(goals, id, val)[k].color == goals[k].color
    ensures Credit(goals, id, val)[k].current == goals[k].current + (if goals[k].id == id then val else 0.0)
  {
    if k > 0 {
      CreditAt(goals[1..], id, val, k - 1);
    }
  }

  /** Crediting a goal id that no goal carries leaves the list as it was. */
  lemma {:induction false} CreditAbsentId(goals: seq<Goal>, id: int, val: real)
    requires forall g :: g in goals ==> g.id != id
    ensures Credit(goals, id, val) == goals
  {
    if goals != [] {
      assert goals[0] in goals;
      forall g | g in goals[1..] ensures g.id != id {
        assert g in goals;
      }
      CreditAbsentId(goals[1..], id, val);
      assert goals == [goals[0]] + goals[1..];
    }
  }

  // ---------------------------------------------------------------------
  // Deleting a goal

  /** The predicate kept by goal deletion: the goal's id differs from `id`. */
  function IdIsNot(id: int): Goal -> bool
  {
    (g: Goal) => g.id != id
  }

  /** The predicate selecting the goals with id `id`. */
  function IdIs(id: int): Goal -> bool
  {
    (g: Goal) => g.id == id
  }

  /** The goal list after deleting the goal(s) with id `id`. */
  function WithoutGoal(goals: seq<Goal>, id: int): (r: seq<Goal>)
    ensures |r| <= |goals|
    ensures forall g :: g in r ==> g in goals && g.id != id
  {
    Filter(goals, IdIsNot(id))
  }

  /** The goals with id `id`. */
  function WithId(goals: seq<Goal>, id: int): seq<Goal>
  {
    Filter(goals, IdIs(id))
  }

  /** Deleting a goal removes every goal with that id, keeps every other goal
      (each occurrence of it) in its original order, and changes nothing when
      no goal has that id. */
  lemma WithoutGoalSpec(goals: seq<Goal>, id: int)
    ensures forall g :: g in WithoutGoal(goals, id) ==> g.id != id
    ensures forall g: Goal :: g.id != id ==> multiset(WithoutGoal(goals, id))[g] == multiset(goals)[g]
    ensures IsSubsequence(WithoutGoal(goals, id), goals)
    ensures (forall g :: g in goals ==> g.id != id) ==> WithoutGoal(goals, id) == goals
  {
    forall g: Goal | g.id != id ensures multiset(WithoutGoal(goals, id))[g] == multiset(goals)[g] {
      FilterCounts(goals, IdIsNot(id), g);
    }
    FilterIsSubsequence(goals, IdIsNot(id));
    if forall g :: g in goals ==> g.id != id {
      FilterKeepsAll(goals, IdIsNot(id));
    }
  }

  // ---------------------------------------------------------------------
  // Transactions linked to a goal

  /** The sum of the values of the transactions linked to goal `id`. */
  function LinkedSum(txs: seq<Transaction>, id: int): (r: real)
    ensures (forall t :: t in txs ==> t.goalId != Some(id)) ==> r == 0.0
  {
    if txs == [] then 0.0
    else (if txs[0].goalId == Some(id) then txs[0].value else 0.0) + LinkedSum(txs[1..], id)
  }

  /** The transaction a deposit of `val` into `selected` records: it takes
      `val` out of the account balance and is linked to the goal. `now` and
      `today` stand for the clock readings used as its id and date. */
  function DepositTransaction(selected: Goal, val: real, now: int, today: string): (t: Transaction)
    ensures LinkedSum([t], selected.id) == -val
    ensures forall id :: id != selected.id ==> LinkedSum([t], id) == 0.0
    ensures t.category == DepositCategory && t.desc == DepositPrefix + selected.name
  {
    Transaction(now, DepositPrefix + selected.name, DepositCategory, -val, today, Some(selected.id))
  }

  /** A deposit keeps, for every goal, its saved amount plus the values of
      the transactions linked to it: the deposit adds `val` to one side and
      `-val` to the other. */
  lemma DepositConserves(goals: seq<Goal>, txs: seq<Transaction>, selected: Goal, val: real,
                         now: int, today: string, k: int)
    requires 0 <= k < |goals|
    ensures Credit(goals, selected.id, val)[k].current
              + LinkedSum([DepositTransaction(selected, val, now, today)] + txs, goals[k].id)
            == goals[k].current + LinkedSum(txs, goals[k].id)
  {
    CreditAt(goals, selected.id, val, k);
    assert ([DepositTransaction(selected, val, now, today)] + txs)[1..] == txs;
  }

  // ---------------------------------------------------------------------
  // Aggregates

  /** The sum of the goals' targets. */
  function TotalTarget(goals: seq<Goal>): (r: real)
    ensures goals != [] && (forall g :: g in goals ==> g.target > 0.0) ==> r > 0.0
  {
    if goals == [] then 0.0 else goals[0].target + TotalTarget(goals[1..])
  }

  /** The sum of the goals' saved amounts. */
  function TotalSaved(goals: seq<Goal>): (r: real)
    ensures (forall g :: g in goals ==> g.current >= 0.0) ==> r >= 0.0
  {
    if goals == [] then 0.0 else goals[0].current + TotalSaved(goals[1..])
  }

  /** The sums agree with the page's left-to-right `reduce`: the last goal
      is added to the sum of the ones before it. */
  lemma {:induction false} TotalsAsLeftFold(goals: seq<Goal>)
    requires goals != []
    ensures TotalSaved(goals) == TotalSaved(goals[..|goals| - 1]) + goals[|goals| - 1].current
    ensures TotalTarget(goals) == TotalTarget(goals[..|goals| - 1]) + goals[|goals| - 1].target
  {
    if |goals| > 1 {
      TotalsAsLeftFold(goals[1..]);
      assert goals[1..][..|goals| - 2] == goals[..|goals| - 1][1..];
    }
  }

  /** The global progress in percent: saved over target, or 0 when the
      targets do not add up to a positive amount. */
  function TotalProgress(goals: seq<Goal>): (r: real)
    ensures TotalTarget(goals) <= 0.0 ==> r == 0.0
    ensures TotalTarget(goals) > 0.0 ==> r * TotalTarget(goals) == 100.0 * TotalSaved(goals)
  {
    if TotalTarget(goals) > 0.0 then TotalSaved(goals) / TotalTarget(goals) * 100.0 else 0.0
  }

  /** `val` added `k` times. */
  function Times(k: nat, val: real): real
  {
    if k == 0 then 0.0 else val + Times(k - 1, val)
  }

  /** Adding `val` `k` times is multiplying it by `k`. */
  lemma {:induction false} TimesIsProduct(k: nat, val: real)
    ensures Times(k, val) == k as real * val
  {
    if k > 0 {
      TimesIsProduct(k - 1, val);
      assert k as real * val == (k - 1) as real * val + val;
    }
  }

  /** A deposit raises the total saved by `val` once per goal it credits
      (`TimesIsProduct` turns this into a product). */
  lemma {:induction false} SavedAfterCredit(goals: seq<Goal>, id: int, val: real)
    ensures TotalSaved(Credit(goals, id, val)) == TotalSaved(goals) + Times(|WithId(goals, id)|, val)
  {
    if goals != [] {
      SavedAfterCredit(goals[1..], id, val);
      var r := Credit(goals, id, val);
      assert r[0] == CreditOne(goals[0], id, val) && r[1..] == Credit(goals[1..], id, val);
      WithIdStep(goals, id);
    }
  }

  /** A deposit leaves the total target alone. */
  lemma {:induction false} TargetAfterCredit(goals: seq<Goal>, id: int, val: real)
    ensures TotalTarget(Credit(goals, id, val)) == TotalTarget(goals)
  {
    if goals != [] {
      TargetAfterCredit(goals[1..], id, val);
      var r := Credit(goals, id, val);
      assert r[0] == CreditOne(goals[0], id, val) && r[1..] == Credit(goals[1..], id, val);
    }
  }

  /** How many goals carry id `id`, peeled off at the head of the list. */
  lemma WithIdStep(goals: seq<Goal>, id: int)
    requires goals != []
    ensures |WithId(goals, id)| == |WithId(goals[1..], id)| + (if goals[0].id == id then 1 else 0)
  {
  }

  /** Deleting a goal takes exactly the deleted goals' amounts out of the totals. */
  lemma {:induction false} TotalsAfterDelete(goals: seq<Goal>, id: int)
    ensures TotalSaved(goals) == TotalSaved(WithoutGoal(goals, id)) + TotalSaved(WithId(goals, id))
    ensures TotalTarget(goals) == TotalTarget(WithoutGoal(goals, id)) + TotalTarget(WithId(goals, id))
  {
    if goals != [] {
      TotalsAfterDelete(goals[1..], id);
    }
  }

  /** With every goal between nothing saved and its target, the global
      progress lies between 0 and 100. */
  lemma ProgressBounded(goals: seq<Goal>)
    requires forall g :: g in goals ==> 0.0 <= g.current <= g.target
    ensures 0.0 <= TotalProgress(goals) <= 100.0
  {
    SavedWithinTarget(goals);
    var s, t := TotalSaved(goals), TotalTarget(goals);
    if t > 0.0 {
      RatioAtMostOne(s, t);
    }
  }

  /** With every goal between nothing saved and its target, the total saved
      lies between 0 and the total target. */
  lemma {:induction false} SavedWithinTarget(goals: seq<Goal>)
    requires forall g :: g in goals ==> 0.0 <= g.current <= g.target
    ensures 0.0 <= TotalSaved(goals) <= TotalTarget(goals)
  {
    if goals != [] {
      assert goals[0] in goals;
      forall g | g in goals[1..] ensures 0.0 <= g.current <= g.target {
        assert g in goals;
      }
      SavedWithinTarget(goals[1..]);
    }
  }

  /** When every goal of a non-empty list has reached a positive target,
      the global progress is at least 100. */
  lemma ProgressOfCompletedGoals(goals: seq<Goal>)
    requires goals != []
    requires forall g :: g in goals ==> 0.0 < g.target <= g.current
    ensures TotalProgress(goals) >= 100.0
  {
    TargetWithinSaved(goals);
    var s, t := TotalSaved(goals), TotalTarget(goals);
    RatioAtLeastOne(s, t);
  }

  /** A share of a positive amount that it does not exceed is at most one. */
  lemma RatioAtMostOne(s: real, t: real)
    requires 0.0 <= s <= t && 0.0 < t
    ensures 0.0 <= s / t * 100.0 <= 100.0
  {
  }

  /** An amount at least as large as a positive one is at least once as large. */
  lemma RatioAtLeastOne(s: real, t: real)
    requires 0.0 < t <= s
    ensures s / t >= 1.0
  {
  }

  /** When every goal of a non-empty list has reached a positive target, the
      total target is positive and the total saved reaches it. */
  lemma {:induction false} TargetWithinSaved(goals: seq<Goal>)
    requires goals != []
    requires forall g :: g in goals ==> 0.0 < g.target <= g.current
    ensures 0.0 < TotalTarget(goals) <= TotalSaved(goals)
  {
    assert goals[0] in goals;
    if |goals| > 1 {
      forall g | g in goals[1..] ensures 0.0 < g.target <= g.current {
        assert g in goals;
      }
      TargetWithinSaved(goals[1..]);
    }
  }

  // ---------------------------------------------------------------------
  // Per-goal progress

  /** A double-precision percentage as the page computes it: a finite
      number, minus infinity (a negative amount over a zero target) or NaN
      (zero over zero). Plus infinity cannot arise after the clamp to 100. */
  datatype Percent = Finite(v: real) | NegInfinity | NotANumber

  /** A goal's progress in percent, clamped at 100. */
  function Percentage(g: Goal): (r: Percent)
    ensures r.Finite? ==> r.v <= 100.0
    ensures r.Finite? <==> g.target != 0.0 || g.current > 0.0
    ensures r.NotANumber? <==> g.target == 0.0 && g.current == 0.0
    ensures g.target > 0.0 && g.current >= 0.0 ==> r.Finite? && r.v >= 0.0
    ensures g.target != 0.0 ==> (r.v == 100.0 <==> g.current / g.target >= 1.0)
    ensures g.target != 0.0 && r.v < 100.0 ==> r.v * g.target == 100.0 * g.current
    ensures g.target == 0.0 && g.current > 0.0 ==> r == Finite(100.0)
  {
    if g.target != 0.0 then
      var p := g.current / g.target * 100.0;
      Finite(if p < 100.0 then p else 100.0)
    else if g.current > 0.0 then Finite(100.0)  // min(+Infinity, 100)
    else if g.current < 0.0 then NegInfinity
    else NotANumber
  }

  /** A goal is shown as completed when its percentage has reached 100:
      for a positive target, exactly when the saved amount reaches it. */
  function IsCompleted(g: Goal): (b: bool)
    ensures b <==> || (g.target > 0.0 && g.current >= g.target)
                   || (g.target < 0.0 && g.current <= g.target)
                   || (g.target == 0.0 && g.current > 0.0)
  {
    RatioReachesOne(g.current, g.target);
    var p := Percentage(g);
    p.Finite? && p.v >= 100.0
  }

  /** `c / t * 100` reaches 100 exactly when `c` lies at or beyond `t`, on
      the side away from zero. */
  lemma RatioReachesOne(c: real, t: real)
    ensures t != 0.0 ==> (c / t * 100.0 >= 100.0 <==> (t > 0.0 && c >= t) || (t < 0.0 && c <= t))
  {
  }

  // ---------------------------------------------------------------------
  // The page state

  /** The amount a deposit goes through with, if any: there must be a
      selected goal, a non-empty input, and the input must parse to a
      positive number (`parsed` is the parse result; None stands for NaN). */
  function DepositAmount(selected: Option<Goal>, input: string, parsed: Option<real>): (r: Option<real>)
    ensures r.Some? <==> selected.Some? && input != "" && parsed.Some? && parsed.value > 0.0
    ensures r.Some? ==> r == parsed
  {
    if selected.None? || input == "" then None
    else if parsed.None? || parsed.value <= 0.0 then None
    else parsed
  }

  /** The goals page: the stored goal and transaction lists and the
      deposit modal's state. */
  class GoalsPage {
    var goals: seq<Goal>
    var transactions: seq<Transaction>
    var isDepositModalOpen: bool
    var selectedGoal: Option<Goal>
    var depositValue: string

    /** The page as it starts, with the lists read back from storage. */
    constructor (storedGoals: seq<Goal>, storedTransactions: seq<Transaction>)
      ensures goals == storedGoals && transactions == storedTransactions
      ensures !isDepositModalOpen && selectedGoal == None && depositValue == ""
    {
      goals := storedGoals;
      transactions := storedTransactions;
      isDepositModalOpen := false;
      selectedGoal := None;
      depositValue := "";
    }

    /** A goal's "add value" button: selects the goal and opens the modal. */
    method OpenDeposit(goal: Goal)
      modifies this`selectedGoal, this`isDepositModalOpen
      ensures selectedGoal == Some(goal) && isDepositModalOpen
    {
      selectedGoal := Some(goal);
      isDepositModalOpen := true;
    }

    /** The modal's close button: hides the modal, keeps the selection and input. */
    method CloseDepositModal()
      modifies this`isDepositModalOpen
      ensures !isDepositModalOpen
    {
      isDepositModalOpen := false;
    }

    /** Typing into the amount field. */
    method SetDepositValue(input: string)
      modifies this`depositValue
      ensures depositValue == input
    {
      depositValue := input;
    }

    /** Confirms the deposit. `parsed` is the number the input parses to,
        `now` and `today` the clock readings. */
    method Deposit(parsed: Option<real>, now: int, today: string)
      modifies this
      ensures old(DepositAmount(selectedGoal, depositValue, parsed)).None? ==>
                && goals == old(goals) && transactions == old(transactions)
                && isDepositModalOpen == old(isDepositModalOpen)
                && selectedGoal == old(selectedGoal) && depositValue == old(depositValue)
      ensures old(DepositAmount(selectedGoal, depositValue, parsed)).Some? ==>
                var selected, val := old(selectedGoal).value, parsed.value;
                && goals == Credit(old(goals), selected.id, val)
                && transactions == [DepositTransaction(selected, val, now, today)] + old(transactions)
                && !isDepositModalOpen && depositValue == "" && selectedGoal == None
      ensures |goals| == |old(goals)|
      ensures forall k :: 0 <= k < |goals| ==>
                && goals[k].id == old(goals[k].id)
                && goals[k].current + LinkedSum(transactions, goals[k].id)
                   == old(goals[k].current + LinkedSum(transactions, goals[k].id))
    {
      var amount := DepositAmount(selectedGoal, depositValue, parsed);
      if amount.None? {
        return;
      }
      var selected, val := selectedGoal.value, amount.value;
      ghost var oldGoals, oldTransactions := goals, transactions;
      goals := Credit(goals, selected.id, val);
      transactions := [DepositTransaction(selected, val, now, today)] + transactions;
      isDepositModalOpen := false;
      depositValue := "";
      selectedGoal := None;
      forall k | 0 <= k < |goals|
        ensures goals[k].id == oldGoals[k].id
        ensures goals[k].current + LinkedSum(transactions, goals[k].id)
                == oldGoals[k].current + LinkedSum(oldTransactions, oldGoals[k].id)
      {
        CreditAt(oldGoals, selected.id, val, k);
        DepositConserves(oldGoals, oldTransactions, selected, val, now, today, k);
      }
    }

    /** Deletes the goal(s) with id `id` when the user confirms; linked
        transactions keep their (now dangling) goal ids. */
    method DeleteGoal(id: int, confirmed: bool)
      modifies this`goals
      ensures goals == if confirmed then WithoutGoal(old(goals), id) else old(goals)
      ensures forall g :: g in goals ==> g in old(goals) && (confirmed ==> g.id != id)
    {
      if confirmed {
        WithoutGoalSpec(goals, id);
        goals := WithoutGoal(goals, id);
      }
    }
  }
}
