/** The values each row of the experiment list shows: the time left, printed
    by the same duration formatter as the calculator's, and the litres left. */
module ExperimentList {
  import opened Wrappers
  import opened Numbers
  import Calculator
  import opened ExperimentPage

  /** The time left in seconds: the millilitres left over the rate, which is
      not a finite number when the rate is zero. */
  function RemainingTime(e: Experiment): (t: Number)
    ensures t.Finite? <==> e.mlPerSec != 0.0
    ensures t.Finite? ==> t.value * e.mlPerSec == e.remainingMl
  {
    Divide(e.remainingMl, e.mlPerSec)
  }

  /** The "Temps restant" cell. */
  function RemainingTimeText(e: Experiment): string {
    Calculator.DurationText(RemainingTime(e))
  }

  /** The "Restant" cell before rounding: the litres left. */
  function RemainingLiters(e: Experiment): (l: real)
    ensures l * 1000.0 == e.remainingMl
  {
    e.remainingMl / 1000.0
  }

  /** An emptied record, and a record whose rate is zero, both show "0 sec". */
  lemma EmptyShowsZero(e: Experiment)
    requires e.remainingMl == 0.0 || e.mlPerSec == 0.0
    ensures RemainingTimeText(e) == "0 sec"
  {
    var t := RemainingTime(e);
    if t.Finite? {
      assert e.remainingMl == 0.0;
      assert t.value == 0.0;
    }
    assert Calculator.WholeSeconds(t) == 0;
    Calculator.DurationTextIsClockText(t);
    Calculator.ClockTextZero();
  }

  /** A record the tick has just finished shows "0 sec" and no litres left. */
  lemma FinishedShowsZero(e: Experiment, now: real)
    requires e.mlPerSec > 0.0 && e.isRunning && Truthy(e.endsAt) && e.endsAt.value <= now
    ensures RemainingTimeText(Reconcile(e, now)) == "0 sec"
    ensures RemainingLiters(Reconcile(e, now)) == 0.0
  {
    ReconcileAnchored(e, now);
    EmptyShowsZero(Reconcile(e, now));
  }

  /** A running record shows exactly the time until its end date. */
  lemma RunningShowsTimeToEnd(e: Experiment, now: real)
    requires e.mlPerSec > 0.0 && e.isRunning && Truthy(e.endsAt) && now < e.endsAt.value
    ensures RemainingTime(Reconcile(e, now)) == Finite((e.endsAt.value - now) / 1000.0)
  {
    ReconcileAnchored(e, now);
    var r := Reconcile(e, now);
    var t := (e.endsAt.value - now) / 1000.0;
    assert r.remainingMl == t * e.mlPerSec;
    assert r.remainingMl / e.mlPerSec == t;
  }

  /** An experiment started from the calculator first shows the calculator's
      own estimate. */
  lemma NewRowShowsEstimate(
    volume: Number, speed: Number, perTime: Number, id: string, now: real)
    requires Calculator.StartClick(volume, speed, perTime).Some?
    ensures var args := Calculator.StartClick(volume, speed, perTime).value;
      RemainingTimeText(NewExperiment(id, args.startLiters, args.mlPerSec, now))
        == Calculator.EstimateText(volume, speed, perTime)
  {
    var args := Calculator.StartClick(volume, speed, perTime).value;
    var e := NewExperiment(id, args.startLiters, args.mlPerSec, now);
    var t := Calculator.TimeInSeconds(volume, speed, perTime);
    assert e.remainingMl / args.mlPerSec == t;
    assert RemainingTime(e) == Finite(t);
  }

  /** After a reset a row shows its starting volume again. */
  lemma ResetShowsStart(s: seq<Experiment>, expId: string, i: int)
    requires 0 <= i < |s| && s[i].id == expId
    ensures RemainingLiters(ResetAll(s, expId)[i]) == s[i].startLiters
  {
  }

  /** As time goes on, the time a running row shows never goes up. */
  lemma RemainingTimeNeverRises(e: Experiment, t1: real, t2: real)
    requires WellFormed(e) && t1 <= t2
    ensures RemainingTime(Reconcile(e, t2)).value <= RemainingTime(Reconcile(e, t1)).value
  {
    var r1, r2 := Reconcile(e, t1), Reconcile(e, t2);
    ReconcileWellFormed(e, t1);
    ReconcileWellFormed(e, t2);
    assert r2.remainingMl <= r1.remainingMl by {
      if e.isRunning && Truthy(e.endsAt) {
        var m1 := MsLeft(e.endsAt.value, t1);
        var m2 := MsLeft(e.endsAt.value, t2);
        assert m2 <= m1;
        MlInMonotone(m2, m1, e.mlPerSec);
        MlInSign(m1, e.mlPerSec);
        MlInSign(m2, e.mlPerSec);
      }
    }
    Calculator.DivideMonotone(r2.remainingMl, r1.remainingMl, e.mlPerSec, e.mlPerSec);
  }
}
