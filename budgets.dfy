/**
 * The two budget helpers of `BudgetsService`: whether a budget's spending has
 * gone past its limit, and how much of the limit is left, each per currency.
 * A limit of zero means the budget sets no limit in that currency.
 */
module Budgets {

  /** The limit and spending fields of a `budget_progress` row. */
  datatype Progress = Progress(amountUsd: real, amountCop: real, spentUsd: real, spentCop: real)

  /** A verdict per currency. */
  datatype PerCurrency<T> = PerCurrency(usd: T, cop: T)

  /**
   * What is left of `limit` after `spent`: never negative, enough to reach the
   * limit, and nothing beyond it.
   */
  function Left(limit: real, spent: real): (left: real)
    ensures left >= 0.0
    ensures spent + left >= limit
    ensures left == 0.0 || spent + left == limit
  {
    if limit - spent >= 0.0 then limit - spent else 0.0
  }

  /**
   * Whether spending went past a limit: only a positive limit can be exceeded,
   * and it is exceeded exactly when nothing is left and spending is not exactly at it.
   */
  function Exceeded(limit: real, spent: real): (over: bool)
    ensures over ==> limit > 0.0
    ensures over <==> limit > 0.0 && Left(limit, spent) == 0.0 && spent != limit
  {
    limit > 0.0 && spent > limit
  }

  /** `isOverBudget`. */
  function IsOverBudget(p: Progress): (r: PerCurrency<bool>)
    ensures r.usd <==> p.amountUsd > 0.0 && p.spentUsd > p.amountUsd
    ensures r.cop <==> p.amountCop > 0.0 && p.spentCop > p.amountCop
  {
    PerCurrency(Exceeded(p.amountUsd, p.spentUsd), Exceeded(p.amountCop, p.spentCop))
  }

  /** `getRemainingBudget`. */
  function RemainingBudget(p: Progress): (r: PerCurrency<real>)
    ensures r.usd >= 0.0 && r.cop >= 0.0
    ensures r.usd == (if p.spentUsd <= p.amountUsd then p.amountUsd - p.spentUsd else 0.0)
    ensures r.cop == (if p.spentCop <= p.amountCop then p.amountCop - p.spentCop else 0.0)
  {
    PerCurrency(Left(p.amountUsd, p.spentUsd), Left(p.amountCop, p.spentCop))
  }

  /** A currency that is over budget has nothing remaining, and one with something remaining is not over. */
  lemma OverBudgetHasNothingLeft(p: Progress)
    ensures IsOverBudget(p).usd ==> RemainingBudget(p).usd == 0.0
    ensures IsOverBudget(p).cop ==> RemainingBudget(p).cop == 0.0
    ensures RemainingBudget(p).usd > 0.0 ==> !IsOverBudget(p).usd
    ensures RemainingBudget(p).cop > 0.0 ==> !IsOverBudget(p).cop
  {
  }
}
