/**
 * Loan period and late-fee arithmetic. Timestamps are integer milliseconds
 * and fees are integer cents: a return strictly after the due date owes
 * 50 cents for every whole day elapsed since the due date.
 */
module Fees {

  const MsPerDay: int := 1000 * 60 * 60 * 24
  const LoanDays: int := 14
  /** Time from checkout to due date. */
  const LoanPeriodMs: int := LoanDays * MsPerDay
  const FeePerDayCents: int := 50

  /** What a successful return reports: on time, or late with a fee. */
  datatype ReturnNotice = OnTime | Late(feeCents: nat)

  /** Whole days late times 50 cents; nothing is owed up to and including the due date. */
  function LateFeeCents(today: int, due: int): (cents: nat)
    ensures today <= due ==> cents == 0
    ensures cents % FeePerDayCents == 0
    ensures cents == 0 <==> today < due + MsPerDay
    ensures cents * MsPerDay <= (today - due) * FeePerDayCents || today <= due
  {
    if today > due then ((today - due) / MsPerDay) * FeePerDayCents else 0
  }

  /** The notice for a return on `today` of a loan due at `due`. */
  function NoticeFor(today: int, due: int): (n: ReturnNotice)
    ensures n == OnTime <==> today <= due
    ensures n.Late? ==> n.feeCents == LateFeeCents(today, due)
  {
    if today > due then Late(LateFeeCents(today, due)) else OnTime
  }

  /** A return `days` whole days and `extra` milliseconds after the due date owes `days * 50` cents. */
  lemma LateFeeForWholeDays(due: int, days: nat, extra: int)
    requires 0 <= extra < MsPerDay
    ensures LateFeeCents(due + days * MsPerDay + extra, due) == days * FeePerDayCents
  {
  }

  /** The fee never decreases as the return date moves later. */
  lemma LateFeeMonotonic(t1: int, t2: int, due: int)
    requires t1 <= t2
    ensures LateFeeCents(t1, due) <= LateFeeCents(t2, due)
  {
  }
}
