/**
 The reconciler of Polls reads the clock a second time when it computes how long
 to wait for closesAt. This module says exactly when that is harmless.
 */
module ClockDrift {
  import opened Model
  import opened PollWebhook
  import RC = PollResponseController
  import PL = PollStatusLaws
  import opened StoreTally
  import opened Cluster
  import opened WakeUps

  /** A reconcile during which the clock moves on before the second read. */
  ghost function DriftingReconcile(c: State, p: string, later: Time): State
    requires p in c.polls
  {
    var target := PollTarget(c, p);
    var d := PersistStatus(c.(pollQueue := c.pollQueue - {p}), p, target).(now := later);
    RequeueAtClose(d, p, c.polls[p].spec, target.phase)
  }

  /** Without drift this is the reconcile of the state machine. */
  lemma NoDrift(c: State, p: string)
    requires p in c.polls
    ensures DriftingReconcile(c, p, c.now) == ReconcilePoll(c, p)
  {
    hide PollTarget, ResponsesTo;
  }

  /**
   After such a reconcile the Poll will still be woken for its closing exactly
   when the status was written, or both reads fell on the same side of closesAt,
   or a timer for the closing was already pending. Otherwise it is not in the
   queue, no timer brings it back by closesAt, and its status still says Open.
   */
  lemma DriftIsHarmlessIff(c: State, p: string, later: Time)
    requires p in c.polls && PollOk(c, p) && later >= c.now
    ensures var d := DriftingReconcile(c, p, later);
            && p in d.polls && d.polls[p].spec == c.polls[p].spec
            && (PollAwake(d, p) <==>
                || !PollSettled(c, p, ClosedNow(c, p))
                || ClosedNow(d, p) == ClosedNow(c, p)
                || Armed(c, p))
  {
    hide PollOk, PollTarget, PersistStatus, ResponsesTo, StoreRows, StoreTotal, PL.RecordedOn;
    PollTargetSettles(c, p);
    PersistOutcome(c, p);
  }

  /**
   The harm can happen: the manager restarts, which loses the timers, a settled
   open Poll is reconciled again, and the clock passes closesAt between the two
   reads. Then the closed Poll shows Open, and neither a queued key nor a timer is
   left for it. No condition but these is asked of the state.
   */
  lemma RestartThenDriftLosesClosing(c: State, p: string, later: Time)
    requires Inv(c) && p in c.polls && PollSettled(c, p, false)
    requires c.polls[p].spec.closesAt.Some? && c.now < c.polls[p].spec.closesAt.value <= later
    ensures var e := Apply(c, Restart);
            && Inv(e) && Enabled(e, DoPoll(p))
            && var d := DriftingReconcile(e, p, later);
               && d.polls == c.polls && d.polls[p].status.phase == PollOpen && ClosedNow(d, p)
               && p !in d.pollQueue && p !in d.timers && !PollAwake(d, p)
  {
    hide PollOk, PollSettled, PollAwake, ResponseOk, ResponseAwake, DriftingReconcile;
    StepKeepsInv(c, Restart);
    assert PollOk(Apply(c, Restart), p);
    hide Inv;
    RestartKeepsSettled(c, p);
    SettledThenDrift(Apply(c, Restart), p, later);
  }

  lemma RestartKeepsSettled(c: State, p: string)
    requires p in c.polls && PollSettled(c, p, false)
    ensures PollSettled(Apply(c, Restart), p, false)
  {
    hide PL.Settled, StoreRows, StoreTotal;
  }

  /** The same without the restart, for a Poll that has no timer. */
  lemma SettledThenDrift(e: State, p: string, later: Time)
    requires p in e.polls && PollOk(e, p) && PollSettled(e, p, false) && p !in e.timers
    requires e.polls[p].spec.closesAt.Some? && e.now < e.polls[p].spec.closesAt.value <= later
    ensures var d := DriftingReconcile(e, p, later);
            && d.polls == e.polls && d.polls[p].status.phase == PollOpen && ClosedNow(d, p)
            && p !in d.pollQueue && p !in d.timers && !PollAwake(d, p)
  {
    hide PollOk, PollTarget, PersistStatus, ResponsesTo, StoreRows, StoreTotal, PL.RecordedOn, PollAwake;
    PollTargetSettles(e, p);
    PersistOutcome(e, p);
    DriftIsHarmlessIff(e, p, later);
  }

  /** So any store, with a Poll created in it, is three steps away from the harm. */
  lemma DriftFromCreation(c: State, p: string, spec: PollSpec, later: Time)
    requires Inv(c) && Enabled(c, CreatePoll(p, spec))
    requires spec.closesAt.Some? && c.now < spec.closesAt.value <= later
    ensures var c1 := Apply(c, CreatePoll(p, spec));
            && Enabled(c1, DoPoll(p))
            && var c2 := Apply(c1, DoPoll(p));
               var c3 := Apply(c2, Restart);
               && Inv(c3) && Enabled(c3, DoPoll(p))
               && var d := DriftingReconcile(c3, p, later);
                  && p in d.polls && d.polls[p].status.phase == PollOpen && ClosedNow(d, p)
                  && p !in d.pollQueue && p !in d.timers && !PollAwake(d, p)
  {
    var c1 := Apply(c, CreatePoll(p, spec));
    assert p in c1.polls && c1.polls[p].spec == spec && p in c1.pollQueue && c1.now == c.now;
    StepKeepsInv(c, CreatePoll(p, spec));
    assert PollOk(c1, p);
    hide Inv, PollOk, PollTarget, ReconcilePoll, ResponsesTo, PollSettled, PollAwake, AdmittedPoll;
    StepKeepsInv(c1, DoPoll(p));
    PollOutcome(c1, p);
    RestartThenDriftLosesClosing(Apply(c1, DoPoll(p)), p, later);
  }
}
