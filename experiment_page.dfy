/** The experiment tracker: a list of countdowns, newest first, each anchored
    to the absolute time at which it will have drained its volume. Every
    handler of the page replaces the list by a function of the old list and
    of the time it read from the clock, which the model takes as `now`
    (milliseconds, as Date.now() gives them). */
module ExperimentPage {
  import opened Wrappers
  import opened Numbers
  import Calculator

  /** One tracked experiment, with the fields the page builds and stores. */
  datatype Experiment = Experiment(
    id: string,
    startLiters: real,
    mlPerSec: real,
    remainingMl: real,
    isRunning: bool,
    startedAt: Option<real>,
    endsAt: Option<real>)

  /** JavaScript truthiness of a nullable timestamp: null and 0 are both falsy. */
  predicate Truthy(t: Option<real>) {
    t.Some? && t.value != 0.0
  }

  /** Milliseconds needed for `ml` millilitres to flow at `mlPerSec`. */
  function MsFor(ml: real, mlPerSec: real): real
    requires mlPerSec != 0.0
  {
    ml / mlPerSec * 1000.0
  }

  /** Millilitres that flow in `ms` milliseconds at `mlPerSec`. */
  function MlIn(ms: real, mlPerSec: real): real {
    ms / 1000.0 * mlPerSec
  }

  /** Milliseconds left until `endsAt`, never negative. */
  function MsLeft(endsAt: real, now: real): real {
    Max(0.0, endsAt - now)
  }

  lemma MlInMsFor(ml: real, mlPerSec: real)
    requires mlPerSec != 0.0
    ensures MlIn(MsFor(ml, mlPerSec), mlPerSec) == ml
  {
    var q := ml / mlPerSec;
    assert q * mlPerSec == ml;
    assert q * 1000.0 / 1000.0 == q;
  }

  lemma MsForMlIn(ms: real, mlPerSec: real)
    requires mlPerSec != 0.0
    ensures MsFor(MlIn(ms, mlPerSec), mlPerSec) == ms
  {
    var q := ms / 1000.0;
    assert q * mlPerSec / mlPerSec == q;
  }

  lemma MlInSign(ms: real, mlPerSec: real)
    requires ms >= 0.0 && mlPerSec > 0.0
    ensures MlIn(ms, mlPerSec) >= 0.0
    ensures MlIn(ms, mlPerSec) > 0.0 <==> ms > 0.0
  {
  }

  lemma MlInMonotone(ms1: real, ms2: real, mlPerSec: real)
    requires ms1 <= ms2 && mlPerSec >= 0.0
    ensures MlIn(ms1, mlPerSec) <= MlIn(ms2, mlPerSec)
  {
    var d := ms2 / 1000.0 - ms1 / 1000.0;
    assert d >= 0.0;
    assert d * mlPerSec >= 0.0;
    assert MlIn(ms2, mlPerSec) - MlIn(ms1, mlPerSec) == d * mlPerSec;
  }

  /** The record invariant the page keeps: the rate is positive, no quantity is
      negative, and a record is running exactly when it carries both
      timestamps (a paused record carries neither). */
  ghost predicate WellFormed(e: Experiment) {
    e.mlPerSec > 0.0 && e.startLiters >= 0.0 && e.remainingMl >= 0.0 &&
    (e.isRunning ==> e.startedAt.Some? && e.endsAt.Some?) &&
    (!e.isRunning ==> e.startedAt.None? && e.endsAt.None?)
  }

  ghost predicate AllWellFormed(s: seq<Experiment>) {
    forall i :: 0 <= i < |s| ==> WellFormed(s[i])
  }

  // ---------------------------------------------------------------------------
  // addExperiment
  // ---------------------------------------------------------------------------

  /** The record addExperiment builds: running from `now`, with its whole volume
      left and due to run out when that volume has flowed at its rate. */
  function NewExperiment(id: string, startLiters: real, mlPerSec: real, now: real): (e: Experiment)
    requires mlPerSec != 0.0
    ensures e.id == id && e.startLiters == startLiters && e.mlPerSec == mlPerSec
    ensures e.isRunning && e.startedAt == Some(now) && e.remainingMl == startLiters * 1000.0
    ensures e.endsAt.Some? && MlIn(e.endsAt.value - now, mlPerSec) == e.remainingMl
    ensures startLiters >= 0.0 && mlPerSec > 0.0 ==> WellFormed(e)
  {
    var totalMs := MsFor(startLiters * 1000.0, mlPerSec);
    MlInMsFor(startLiters * 1000.0, mlPerSec);
    Experiment(id, startLiters, mlPerSec, startLiters * 1000.0, true, Some(now), Some(now + totalMs))
  }

  // ---------------------------------------------------------------------------
  // The periodic tick and the load-time normaliser
  // ---------------------------------------------------------------------------

  /** One record recomputed against the clock: a running record with an end
      time gets the volume left until that end time, and stops, emptied, once
      nothing is left; every other record stays as it is. */
  function Reconcile(e: Experiment, now: real): (r: Experiment)
    ensures r.id == e.id && r.startLiters == e.startLiters && r.mlPerSec == e.mlPerSec
    ensures !e.isRunning || !Truthy(e.endsAt) ==> r == e
    ensures r.isRunning ==> r.startedAt == e.startedAt && r.endsAt == e.endsAt
  {
    if !e.isRunning || !Truthy(e.endsAt) then e
    else
      var remainingMl := MlIn(MsLeft(e.endsAt.value, now), e.mlPerSec);
      if remainingMl <= 0.0
      then e.(remainingMl := 0.0, isRunning := false, startedAt := None, endsAt := None)
      else e.(remainingMl := remainingMl)
  }

  /** The tick: every record reconciled, in place. */
  function ReconcileAll(s: seq<Experiment>, now: real): (r: seq<Experiment>)
    ensures |r| == |s|
    ensures forall i :: 0 <= i < |s| ==> r[i] == Reconcile(s[i], now)
  {
    seq(|s|, i requires 0 <= i < |s| => Reconcile(s[i], now))
  }

  /** A running record that has not yet reached its end time shows the volume
      that flows between now and then; one whose end time has passed is
      stopped, empty, and carries no timestamps. */
  lemma ReconcileAnchored(e: Experiment, now: real)
    requires e.mlPerSec > 0.0 && e.isRunning && Truthy(e.endsAt)
    ensures now < e.endsAt.value ==>
      var r := Reconcile(e, now);
      r.isRunning && r.remainingMl == MlIn(e.endsAt.value - now, e.mlPerSec) && r.remainingMl > 0.0
    ensures e.endsAt.value <= now ==>
      Reconcile(e, now) == e.(remainingMl := 0.0, isRunning := false, startedAt := None, endsAt := None)
  {
    MlInSign(MsLeft(e.endsAt.value, now), e.mlPerSec);
  }

  /** Ticks correct themselves: a tick at t2 erases whatever an earlier tick at
      t1 did, so skipped or irregular ticks change nothing. With t1 == t2 this
      is idempotence. */
  lemma ReconcileLater(e: Experiment, t1: real, t2: real)
    requires t1 <= t2
    ensures Reconcile(Reconcile(e, t1), t2) == Reconcile(e, t2)
  {
    if e.isRunning && Truthy(e.endsAt) {
      var m1 := MsLeft(e.endsAt.value, t1);
      var m2 := MsLeft(e.endsAt.value, t2);
      assert m2 <= m1;
      if MlIn(m1, e.mlPerSec) <= 0.0 {
        if e.mlPerSec > 0.0 {
          assert m1 == 0.0 by {
            if m1 > 0.0 { MlInSign(m1, e.mlPerSec); }
          }
          assert m2 == 0.0;
        } else {
          assert MlIn(m2, e.mlPerSec) <= 0.0;
        }
      }
    }
  }

  lemma ReconcileIdempotent(e: Experiment, now: real)
    ensures Reconcile(Reconcile(e, now), now) == Reconcile(e, now)
  {
    ReconcileLater(e, now, now);
  }

  lemma ReconcileAllLater(s: seq<Experiment>, t1: real, t2: real)
    requires t1 <= t2
    ensures ReconcileAll(ReconcileAll(s, t1), t2) == ReconcileAll(s, t2)
  {
    var a := ReconcileAll(ReconcileAll(s, t1), t2);
    var b := ReconcileAll(s, t2);
    forall i | 0 <= i < |s| ensures a[i] == b[i] {
      ReconcileLater(s[i], t1, t2);
    }
  }

  lemma ReconcileWellFormed(e: Experiment, now: real)
    requires WellFormed(e)
    ensures WellFormed(Reconcile(e, now))
  {
    if e.isRunning && Truthy(e.endsAt) {
      MlInSign(MsLeft(e.endsAt.value, now), e.mlPerSec);
    }
  }

  lemma ReconcileAllWellFormed(s: seq<Experiment>, now: real)
    requires AllWellFormed(s)
    ensures AllWellFormed(ReconcileAll(s, now))
  {
    forall i | 0 <= i < |s| ensures WellFormed(ReconcileAll(s, now)[i]) {
      ReconcileWellFormed(s[i], now);
    }
  }

  /** A record just added is already reconciled at the time it was added. */
  lemma NewExperimentReconciled(id: string, startLiters: real, mlPerSec: real, now: real)
    requires startLiters > 0.0 && mlPerSec > 0.0
    ensures Reconcile(NewExperiment(id, startLiters, mlPerSec, now), now) == NewExperiment(id, startLiters, mlPerSec, now)
  {
    var e := NewExperiment(id, startLiters, mlPerSec, now);
    if Truthy(e.endsAt) {
      var ms := e.endsAt.value - now;
      assert MlIn(ms, mlPerSec) == startLiters * 1000.0;
      MlInSign(ms, mlPerSec);
      assert ms > 0.0;
      assert MsLeft(e.endsAt.value, now) == ms;
    }
  }

  /** The load-time normaliser of one decoded record, as written: local copies
      of the four fields are reassigned and then spread over the record. */
  method NormalizeRecord(e: Experiment, now: real) returns (r: Experiment)
    ensures r == Reconcile(e, now)
  {
    var remainingMl := e.remainingMl;
    var isRunning := e.isRunning;
    var startedAt := e.startedAt;
    var endsAt := e.endsAt;
    if isRunning && Truthy(endsAt) {
      var remainingMs := Max(0.0, endsAt.value - now);
      remainingMl := (remainingMs / 1000.0) * e.mlPerSec;
      if remainingMl <= 0.0 {
        remainingMl := 0.0;
        isRunning := false;
        startedAt := None;
        endsAt := None;
      }
    }
    r := e.(remainingMl := remainingMl, isRunning := isRunning, startedAt := startedAt, endsAt := endsAt);
  }

  /** The load-time normaliser applied to the whole decoded list. */
  method Normalize(parsed: seq<Experiment>, now: real) returns (normalized: seq<Experiment>)
    ensures normalized == ReconcileAll(parsed, now)
  {
    normalized := [];
    for i := 0 to |parsed|
      invariant |normalized| == i
      invariant forall k :: 0 <= k < i ==> normalized[k] == Reconcile(parsed[k], now)
    {
      var r := NormalizeRecord(parsed[i], now);
      normalized := normalized + [r];
    }
  }

  // ---------------------------------------------------------------------------
  // togglePause
  // ---------------------------------------------------------------------------

  /** Pausing: the volume left is frozen (from the end time when there is one,
      otherwise from the stored volume) and both timestamps are cleared. */
  function Pause(e: Experiment, now: real): (r: Experiment)
    requires !Truthy(e.endsAt) ==> e.mlPerSec != 0.0
    ensures !r.isRunning && r.startedAt.None? && r.endsAt.None?
    ensures r.id == e.id && r.startLiters == e.startLiters && r.mlPerSec == e.mlPerSec
  {
    var remainingMs :=
      if Truthy(e.endsAt) then MsLeft(e.endsAt.value, now) else MsFor(e.remainingMl, e.mlPerSec);
    e.(isRunning := false, startedAt := None, endsAt := None, remainingMl := MlIn(remainingMs, e.mlPerSec))
  }

  /** Resuming: the stored volume is kept and the record is anchored anew, to
      run out when that volume has flowed from now on. */
  function Resume(e: Experiment, now: real): (r: Experiment)
    requires e.mlPerSec != 0.0
    ensures r.isRunning && r.startedAt == Some(now) && r.remainingMl == e.remainingMl
    ensures r.endsAt.Some? && MlIn(r.endsAt.value - now, e.mlPerSec) == e.remainingMl
    ensures r.id == e.id && r.startLiters == e.startLiters && r.mlPerSec == e.mlPerSec
  {
    MlInMsFor(e.remainingMl, e.mlPerSec);
    e.(isRunning := true, startedAt := Some(now), endsAt := Some(now + MsFor(e.remainingMl, e.mlPerSec)))
  }

  /** The record can be toggled without dividing by a zero rate: pausing
      divides by the rate only when there is no end time, resuming always. */
  predicate Toggleable(e: Experiment) {
    if e.isRunning then Truthy(e.endsAt) || e.mlPerSec != 0.0 else e.mlPerSec != 0.0
  }

  function Toggle(e: Experiment, expId: string, now: real): Experiment
    requires e.id == expId ==> Toggleable(e)
  {
    if e.id != expId then e else if e.isRunning then Pause(e, now) else Resume(e, now)
  }

  predicate AllToggleable(s: seq<Experiment>, expId: string) {
    forall i :: 0 <= i < |s| && s[i].id == expId ==> Toggleable(s[i])
  }

  /** togglePause over the list: only the records with this id change, each of
      them paused if it was running and resumed if it was not. */
  function ToggleAll(s: seq<Experiment>, expId: string, now: real): (r: seq<Experiment>)
    requires AllToggleable(s, expId)
    ensures |r| == |s|
    ensures forall i :: 0 <= i < |s| ==> r[i].id == s[i].id
    ensures forall i :: 0 <= i < |s| && s[i].id != expId ==> r[i] == s[i]
    ensures forall i :: 0 <= i < |s| && s[i].id == expId ==>
      r[i].isRunning == !s[i].isRunning && r[i] == Toggle(s[i], expId, now)
  {
    seq(|s|, i requires 0 <= i < |s| => Toggle(s[i], expId, now))
  }

  /** Pausing a running record without an end time keeps its stored volume. */
  lemma PauseWithoutEndKeepsVolume(e: Experiment, now: real)
    requires e.mlPerSec != 0.0 && !Truthy(e.endsAt)
    ensures Pause(e, now).remainingMl == e.remainingMl
  {
    MlInMsFor(e.remainingMl, e.mlPerSec);
  }

  /** With a zero rate, pausing from an end time freezes an empty volume. */
  lemma PauseAtZeroRate(e: Experiment, now: real)
    requires e.mlPerSec == 0.0 && Truthy(e.endsAt)
    ensures !Pause(e, now).isRunning && Pause(e, now).remainingMl == 0.0
  {
  }

  /** Pausing freezes exactly the volume a tick at the same time would show. */
  lemma PauseFreezesReconciled(e: Experiment, now: real)
    requires e.mlPerSec > 0.0 && e.isRunning && Truthy(e.endsAt)
    ensures Pause(e, now).remainingMl == Reconcile(e, now).remainingMl
  {
    MlInSign(MsLeft(e.endsAt.value, now), e.mlPerSec);
  }

  /** Resuming and pausing again at the same time gives back the paused record. */
  lemma ResumeThenPause(e: Experiment, now: real)
    requires WellFormed(e) && !e.isRunning
    ensures Pause(Resume(e, now), now) == e
  {
    var r := Resume(e, now);
    var ms := MsFor(e.remainingMl, e.mlPerSec);
    MlInMsFor(e.remainingMl, e.mlPerSec);
    assert ms >= 0.0 by {
      assert e.remainingMl / e.mlPerSec >= 0.0;
    }
    assert MsLeft(r.endsAt.value, now) == ms;
  }

  /** Pausing and resuming at the same time keeps a pending end time. */
  lemma PauseThenResume(e: Experiment, now: real)
    requires WellFormed(e) && e.isRunning && Truthy(e.endsAt) && now <= e.endsAt.value
    ensures Resume(Pause(e, now), now).endsAt == e.endsAt
    ensures Resume(Pause(e, now), now).isRunning
  {
    MsForMlIn(e.endsAt.value - now, e.mlPerSec);
  }

  lemma ToggleWellFormed(e: Experiment, expId: string, now: real)
    requires WellFormed(e)
    ensures WellFormed(Toggle(e, expId, now))
  {
    if e.id == expId {
      if e.isRunning {
        var ms := if Truthy(e.endsAt) then MsLeft(e.endsAt.value, now) else MsFor(e.remainingMl, e.mlPerSec);
        assert ms >= 0.0 by {
          if !Truthy(e.endsAt) {
            assert e.remainingMl / e.mlPerSec >= 0.0;
          }
        }
        MlInSign(ms, e.mlPerSec);
      }
    }
  }

  lemma ToggleAllWellFormed(s: seq<Experiment>, expId: string, now: real)
    requires AllWellFormed(s)
    ensures AllToggleable(s, expId)
    ensures AllWellFormed(ToggleAll(s, expId, now))
  {
    forall i | 0 <= i < |s| ensures WellFormed(ToggleAll(s, expId, now)[i]) {
      ToggleWellFormed(s[i], expId, now);
    }
  }

  // ---------------------------------------------------------------------------
  // resetExperiment and removeExperiment
  // ---------------------------------------------------------------------------

  function ResetRecord(e: Experiment, expId: string): Experiment {
    if e.id == expId
    then e.(remainingMl := e.startLiters * 1000.0, isRunning := false, startedAt := None, endsAt := None)
    else e
  }

  /** resetExperiment: the records with this id are stopped and refilled to
      their starting volume; every other record is left alone. */
  function ResetAll(s: seq<Experiment>, expId: string): (r: seq<Experiment>)
    ensures |r| == |s|
    ensures forall i :: 0 <= i < |s| && s[i].id != expId ==> r[i] == s[i]
    ensures forall i :: 0 <= i < |s| && s[i].id == expId ==>
      r[i].id == s[i].id && r[i].startLiters == s[i].startLiters && r[i].mlPerSec == s[i].mlPerSec &&
      r[i].remainingMl == s[i].startLiters * 1000.0 && !r[i].isRunning &&
      r[i].startedAt.None? && r[i].endsAt.None?
  {
    seq(|s|, i requires 0 <= i < |s| => ResetRecord(s[i], expId))
  }

  lemma ResetAllIdempotent(s: seq<Experiment>, expId: string)
    ensures ResetAll(ResetAll(s, expId), expId) == ResetAll(s, expId)
  {
  }

  lemma ResetAllWellFormed(s: seq<Experiment>, expId: string)
    requires AllWellFormed(s)
    ensures AllWellFormed(ResetAll(s, expId))
  {
  }

  /** removeExperiment: the list without the records with this id. */
  function Without(s: seq<Experiment>, expId: string): (r: seq<Experiment>)
    ensures forall e :: e in r <==> e in s && e.id != expId
    ensures |r| <= |s|
    ensures (forall i :: 0 <= i < |s| ==> s[i].id != expId) ==> r == s
    decreases |s|
  {
    if |s| == 0 then []
    else if s[0].id == expId then Without(s[1..], expId)
    else [s[0]] + Without(s[1..], expId)
  }

  /** Removal keeps the other records in their order: it works piece by piece. */
  lemma {:induction false} WithoutAppend(a: seq<Experiment>, b: seq<Experiment>, expId: string)
    ensures Without(a + b, expId) == Without(a, expId) + Without(b, expId)
    decreases |a|
  {
    if |a| == 0 {
      assert a + b == b;
    } else {
      var rest := a[1..] + b;
      assert (a + b)[0] == a[0];
      assert (a + b)[1..] == rest;
      WithoutAppend(a[1..], b, expId);
      var x, y := Without(a[1..], expId), Without(b, expId);
      if a[0].id != expId {
        assert Without(a + b, expId) == [a[0]] + (x + y);
        assert [a[0]] + (x + y) == [a[0]] + x + y;
      }
    }
  }

  lemma WithoutIdempotent(s: seq<Experiment>, expId: string)
    ensures Without(Without(s, expId), expId) == Without(s, expId)
  {
  }

  lemma WithoutWellFormed(s: seq<Experiment>, expId: string)
    requires AllWellFormed(s)
    ensures AllWellFormed(Without(s, expId))
  {
    var r := Without(s, expId);
    forall i | 0 <= i < |r| ensures WellFormed(r[i]) {
      assert r[i] in s;
    }
  }

  // ---------------------------------------------------------------------------
  // The calculator's start button and addExperiment together
  // ---------------------------------------------------------------------------

  /** An experiment started from the calculator is due to end exactly when the
      calculator's estimate says, counted from the click. The form's end date
      is counted from the clock reading taken once on mount (`formNow`), so
      the experiment ends later than that date by the time elapsed between
      mount and click. */
  lemma StartMatchesEstimate(
    volume: Number, speed: Number, perTime: Number, id: string, formNow: real, now: real)
    requires Calculator.StartClick(volume, speed, perTime).Some?
    ensures var args := Calculator.StartClick(volume, speed, perTime).value;
      var e := NewExperiment(id, args.startLiters, args.mlPerSec, now);
      e.endsAt == Some(now + Calculator.TimeInSeconds(volume, speed, perTime) * 1000.0) &&
      (Calculator.StartEnabled(volume, speed, perTime) ==>
        e.endsAt.value ==
          Calculator.EndDate(Some(formNow), volume, speed, perTime).value + (now - formNow))
  {
  }

  // ---------------------------------------------------------------------------
  // The page's state
  // ---------------------------------------------------------------------------

  /** The page's list of experiments, newest first. */
  class Tracker {
    var experiments: seq<Experiment>

    ghost predicate Valid()
      reads this
    {
      AllWellFormed(experiments)
    }

    constructor ()
      ensures Valid() && experiments == []
    {
      experiments := [];
    }

    /** The mount-time load. `stored` is the decoded list, or `None` when the
        key is absent or its content could not be decoded. */
    method Load(stored: Option<seq<Experiment>>, now: real)
      modifies this
      ensures stored.None? ==> experiments == old(experiments)
      ensures stored.Some? ==> experiments == ReconcileAll(stored.value, now)
      ensures stored.Some? && AllWellFormed(stored.value) ==> Valid()
      ensures stored.None? && old(Valid()) ==> Valid()
    {
      if stored.Some? {
        var normalized := Normalize(stored.value, now);
        if AllWellFormed(stored.value) {
          ReconcileAllWellFormed(stored.value, now);
        }
        experiments := normalized;
      }
    }

    /** addExperiment, with the id and the time read from the clock as
        parameters; the rate comes from the calculator, which only passes a
        positive one. */
    method AddExperiment(id: string, startLiters: real, mlPerSec: real, now: real)
      requires mlPerSec != 0.0
      modifies this
      ensures experiments == [NewExperiment(id, startLiters, mlPerSec, now)] + old(experiments)
      ensures old(Valid()) && startLiters >= 0.0 && mlPerSec > 0.0 ==> Valid()
    {
      experiments := [NewExperiment(id, startLiters, mlPerSec, now)] + experiments;
    }

    method TogglePause(expId: string, now: real)
      requires AllToggleable(experiments, expId)
      modifies this
      ensures experiments == ToggleAll(old(experiments), expId, now)
      ensures old(Valid()) ==> Valid()
    {
      if Valid() {
        ToggleAllWellFormed(experiments, expId, now);
      }
      experiments := ToggleAll(experiments, expId, now);
    }

    method ResetExperiment(expId: string)
      modifies this
      ensures experiments == ResetAll(old(experiments), expId)
      ensures old(Valid()) ==> Valid()
    {
      if Valid() {
        ResetAllWellFormed(experiments, expId);
      }
      experiments := ResetAll(experiments, expId);
    }

    method RemoveExperiment(expId: string)
      modifies this
      ensures experiments == Without(old(experiments), expId)
      ensures old(Valid()) ==> Valid()
    {
      if Valid() {
        WithoutWellFormed(experiments, expId);
      }
      experiments := Without(experiments, expId);
    }

    /** The interval callback, run with the time it read. */
    method Tick(now: real)
      modifies this
      ensures experiments == ReconcileAll(old(experiments), now)
      ensures old(Valid()) ==> Valid()
    {
      if Valid() {
        ReconcileAllWellFormed(experiments, now);
      }
      experiments := ReconcileAll(experiments, now);
    }
  }
}
