/** How the timestamps and phases of an object develop over a run. */
module Timeline {
  import opened Model
  import opened PollWebhook
  import opened PollResponseWebhook
  import PC = PollController
  import RC = PollResponseController
  import PL = PollStatusLaws
  import opened StoreTally
  import opened Cluster
  import opened WakeUps
  import opened Convergence

  // ---------- The timestamps are in order ----------

  ghost predicate InOrder(status: PollStatus, now: Time) {
    && (status.openedAt.Some? ==> status.openedAt.value <= now)
    && (status.closedAt.Some? ==>
          status.openedAt.Some? && status.openedAt.value <= status.closedAt.value <= now)
  }

  ghost predicate TimelineInv(c: State) {
    forall p | p in c.polls :: InOrder(c.polls[p].status, c.now)
  }

  lemma {:induction false} RunKeepsTimeline(cs: seq<State>, steps: seq<Step>, i: nat)
    requires IsRun(cs, steps) && Initial(cs[0]) && i < |cs|
    ensures Inv(cs[i]) && TimelineInv(cs[i])
  {
    hide Inv, TimelineInv;
    RunKeepsInv(cs, steps, i);
    if i == 0 {
      assert TimelineInv(cs[0]) by { EmptyTimeline(cs[0]); }
    } else {
      RunKeepsTimeline(cs, steps, i - 1);
      assert cs[i - 1 + 1] == Apply(cs[i - 1], steps[i - 1]);
      StepKeepsTimeline(cs[i - 1], steps[i - 1]);
    }
  }

  lemma EmptyTimeline(c: State)
    requires Initial(c)
    ensures TimelineInv(c)
  {
  }

  /** The stored Polls after a step, with the skipped writes taken out of the picture. */
  ghost function PollsAfter(c: State, s: Step): map<string, Poll>
    requires Enabled(c, s)
  {
    match s
    case CreatePoll(p, spec) => c.polls[p := Poll(c.nextUid, spec, 1, EMPTY_POLL_STATUS)]
    case UpdatePoll(p, spec) =>
      if spec == c.polls[p].spec then c.polls
      else c.polls[p := c.polls[p].(spec := spec, generation := c.polls[p].generation + 1)]
    case DeletePoll(p) => c.polls - {p}
    case DoPoll(p) => if p in c.polls then c.polls[p := c.polls[p].(status := PollTarget(c, p))] else c.polls
    case _ => c.polls
  }

  lemma PollsAfterStep(c: State, s: Step)
    requires Inv(c) && Enabled(c, s)
    ensures Apply(c, s).polls == PollsAfter(c, s)
    ensures Apply(c, s).now >= c.now && (Reconcile(s) ==> Apply(c, s).now == c.now)
  {
    hide Inv, AdmittedPoll, KeepsTypes, AdmittedResponse, PollTarget, ReconcilePoll, ReconcileResponse;
    hide PollEvent, ResponseEvent, StoreResponse;
    if s.DoPoll? {
      PollsAfterReconcile(c, s.p);
    } else if s.DoResponse? {
      PollsAfterResponse(c, s.r);
    } else {
      EventsKeepObjects(c, s);
    }
  }

  lemma PollsAfterReconcile(c: State, p: string)
    requires Inv(c)
    ensures var d := ReconcilePoll(c, p);
            && d.now == c.now
            && d.polls == if p in c.polls then c.polls[p := c.polls[p].(status := PollTarget(c, p))] else c.polls
  {
    if p in c.polls {
      assert PollOk(c, p);
      PollOutcome(c, p);
    }
    hide Inv, PollOk, PollTarget, PollSettled, Armed;
  }

  lemma PollsAfterResponse(c: State, r: string)
    ensures ReconcileResponse(c, r).polls == c.polls && ReconcileResponse(c, r).now == c.now
  {
    hide ResponseTarget, RC.StatusEqual;
  }

  /** Events fill the queues and leave the objects alone. */
  lemma EventsKeepObjects(c: State, s: Step)
    requires Enabled(c, s) && !Reconcile(s)
    ensures Apply(c, s).polls == PollsAfter(c, s)
    ensures Apply(c, s).now >= c.now
  {
    hide AdmittedPoll, KeepsTypes, AdmittedResponse, ResponsesTo, PollOf, PollTarget, ReconcilePoll, ReconcileResponse;
  }

  /** What a step can do to a Poll that stays: nothing, an edit of the spec, or a reconcile; a new one starts blank. */
  lemma PollChanges(c: State, s: Step, p: string)
    requires Inv(c) && Enabled(c, s) && p in Apply(c, s).polls
    ensures var d := Apply(c, s);
            && d.now >= c.now
            && if p !in c.polls || d.polls[p].uid != c.polls[p].uid then d.polls[p].status == EMPTY_POLL_STATUS
               else if s == DoPoll(p) then
                 d.now == c.now && d.polls[p].spec == c.polls[p].spec && d.polls[p].status == PollTarget(c, p)
               else d.polls[p].status == c.polls[p].status
  {
    hide Inv, Apply, PollTarget, AdmittedPoll, AdmittedResponse, KeepsTypes;
    PollsAfterStep(c, s);
  }

  /** What a reconcile of `p` now makes of the phase, the timestamps and the Ready condition. */
  ghost predicate Records(c: State, p: string, after: PollStatus)
    requires p in c.polls
  {
    var before, closesAt := c.polls[p].status, c.polls[p].spec.closesAt;
    var open := closesAt.None? || c.now < closesAt.value;
    && after.phase == (if open then PollOpen else PollClosed)
    && after.openedAt == (if before.openedAt.Some? then before.openedAt else Some(c.now))
    && after.closedAt == (if open then None else if before.closedAt.Some? then before.closedAt else Some(c.now))
    && after.conditions == [
         if open
         then Condition(Ready, ConditionTrue, ReasonOpen, AcceptingResponses, c.polls[p].generation,
                        if before.phase == PollOpen then ReadySince(before) else c.now)
         else Condition(Ready, ConditionFalse, ReasonClosed, NoLongerAccepting, c.polls[p].generation,
                        if before.phase == PollClosed then ReadySince(before) else c.now)]
  }

  /** When the Ready condition last changed its status. */
  ghost function ReadySince(status: PollStatus): Time {
    if status.conditions == [] then 0 else status.conditions[0].lastTransitionTime
  }

  lemma TargetRecords(c: State, p: string)
    requires p in c.polls && PollOk(c, p)
    ensures Records(c, p, PollTarget(c, p))
  {
    hide AdmittedPoll, PL.ShapedLike, StoreRows, StoreTotal;
  }

  lemma TargetInOrder(c: State, p: string)
    requires p in c.polls && PollOk(c, p) && InOrder(c.polls[p].status, c.now)
    ensures InOrder(PollTarget(c, p), c.now)
    ensures Records(c, p, PollTarget(c, p))
  {
    hide AdmittedPoll, PL.ShapedLike, StoreRows, StoreTotal;
  }

  lemma StepKeepsTimeline(c: State, s: Step)
    requires Inv(c) && TimelineInv(c) && Enabled(c, s)
    ensures TimelineInv(Apply(c, s))
  {
    var d := Apply(c, s);
    forall p | p in d.polls ensures InOrder(d.polls[p].status, d.now) {
      PollChanges(c, s, p);
      if p in c.polls && s == DoPoll(p) {
        assert PollOk(c, p);
        TargetInOrder(c, p);
      }
    }
  }

  // ---------- Phases and timestamps of a Poll ----------

  /** The Poll `p` with this uid is stored in all the states from `i` to `j`. */
  ghost predicate Lives(cs: seq<State>, i: nat, j: nat, p: string, uid: nat) {
    i <= j < |cs| && forall k | i <= k <= j :: p in cs[k].polls && cs[k].polls[p].uid == uid
  }

  /** Once reconciled: opened, Pending never shows, closed exactly when there is a closing time, and in order. */
  lemma PhaseAndTimestamps(cs: seq<State>, steps: seq<Step>, i: nat, p: string)
    requires IsRun(cs, steps) && Initial(cs[0]) && i < |cs| && p in cs[i].polls
    ensures var status := cs[i].polls[p].status;
            status != EMPTY_POLL_STATUS ==>
              && (status.phase == PollOpen || status.phase == PollClosed)
              && status.openedAt.Some? && status.openedAt.value <= cs[i].now
              && (status.phase == PollClosed <==> status.closedAt.Some?)
              && (status.closedAt.Some? ==> status.openedAt.value <= status.closedAt.value <= cs[i].now)
  {
    RunKeepsTimeline(cs, steps, i);
    assert PollOk(cs[i], p);
    hide Inv, IsRun, AdmittedPoll, PL.ShapedLike;
  }

  /** What one step of a run can do to the timestamps of a Poll that lives through it. */
  ghost predicate PollStep(c: State, s: Step, d: State, p: string)
    requires p in c.polls && p in d.polls
  {
    var before, after := c.polls[p].status, d.polls[p].status;
    && c.now <= d.now
    && if s == DoPoll(p) then c.now == d.now && c.polls[p].spec == d.polls[p].spec && Records(c, p, after)
       else after == before
  }

  lemma StepInRun(cs: seq<State>, steps: seq<Step>, k: nat, p: string)
    requires IsRun(cs, steps) && Initial(cs[0]) && k < |steps|
    requires p in cs[k].polls && p in cs[k + 1].polls && cs[k].polls[p].uid == cs[k + 1].polls[p].uid
    ensures PollStep(cs[k], steps[k], cs[k + 1], p)
  {
    RunKeepsTimeline(cs, steps, k);
    assert cs[k + 1] == Apply(cs[k], steps[k]);
    PollChanges(cs[k], steps[k], p);
    assert PollOk(cs[k], p) && InOrder(cs[k].polls[p].status, cs[k].now);
    hide IsRun, Inv, PollOk, Apply, PollTarget;
    TargetInOrder(cs[k], p);
  }

  lemma RunLength(cs: seq<State>, steps: seq<Step>)
    requires IsRun(cs, steps)
    ensures |cs| == |steps| + 1
  {
  }

  lemma OpenedStep(c: State, s: Step, d: State, p: string)
    requires p in c.polls && p in d.polls && PollStep(c, s, d, p)
    ensures c.polls[p].status.openedAt.Some? ==> d.polls[p].status.openedAt == c.polls[p].status.openedAt
  {
  }

  /** Once set, openedAt never changes as long as the Poll lives. */
  lemma {:induction false} OpenedAtNeverChanges(cs: seq<State>, steps: seq<Step>, i: nat, j: nat, p: string, uid: nat)
    requires IsRun(cs, steps) && Initial(cs[0]) && Lives(cs, i, j, p, uid)
    requires cs[i].polls[p].status.openedAt.Some?
    ensures cs[j].polls[p].status.openedAt == cs[i].polls[p].status.openedAt
    decreases j
  {
    hide IsRun, Initial, PollStep;
    if i < j {
      RunLength(cs, steps);
      OpenedAtNeverChanges(cs, steps, i, j - 1, p, uid);
      StepInRun(cs, steps, j - 1, p);
      assert PollStep(cs[j - 1], steps[j - 1], cs[j - 1 + 1], p);
      OpenedStep(cs[j - 1], steps[j - 1], cs[j], p);
    }
  }

  // ---------- Which instants they are ----------

  /** Until its first reconcile a Poll shows nothing. */
  lemma {:induction false} UnreconciledIsBlank(cs: seq<State>, steps: seq<Step>, b: nat, m: nat, p: string, uid: nat)
    requires IsRun(cs, steps) && Initial(cs[0]) && b < |steps| && steps[b].CreatePoll? && steps[b].p == p
    requires b < m && Lives(cs, b + 1, m, p, uid) && m <= |steps|
    requires forall x | b < x < m :: steps[x] != DoPoll(p)
    ensures cs[m].polls[p].status == EMPTY_POLL_STATUS
    decreases m
  {
    hide IsRun, Initial, Inv, Apply, PollStep;
    if b + 1 < m {
      UnreconciledIsBlank(cs, steps, b, m - 1, p, uid);
      StepInRun(cs, steps, m - 1, p);
      UntouchedStep(cs[m - 1], steps[m - 1], cs[m], p);
    } else {
      StepOfRun(cs, steps, b);
      RunKeepsInv(cs, steps, b);
      PollChanges(cs[b], steps[b], p);
      CreatedIsNew(cs[b], steps[b]);
    }
  }

  lemma CreatedIsNew(c: State, s: Step)
    requires Enabled(c, s) && s.CreatePoll?
    ensures s.p !in c.polls
  {
  }

  lemma UntouchedStep(c: State, s: Step, d: State, p: string)
    requires p in c.polls && p in d.polls && PollStep(c, s, d, p) && s != DoPoll(p)
    ensures d.polls[p].status == c.polls[p].status
  {
  }

  lemma RecordsStep(c: State, d: State, p: string)
    requires p in c.polls && p in d.polls && PollStep(c, DoPoll(p), d, p)
    ensures Records(c, p, d.polls[p].status)
  {
  }

  /** A Poll opened at the instant of the first reconcile after its creation, whatever happens later. */
  lemma OpenedAtIsFirstReconcile(cs: seq<State>, steps: seq<Step>, b: nat, k: nat, j: nat, p: string, uid: nat)
    requires IsRun(cs, steps) && Initial(cs[0]) && b < k < j <= |steps|
    requires steps[b].CreatePoll? && steps[b].p == p && Lives(cs, b + 1, j, p, uid)
    requires steps[k] == DoPoll(p) && forall x | b < x < k :: steps[x] != DoPoll(p)
    ensures cs[j].polls[p].status.openedAt == Some(cs[k].now)
  {
    hide IsRun, Initial, PollStep;
    UnreconciledIsBlank(cs, steps, b, k, p, uid);
    StepInRun(cs, steps, k, p);
    RecordsStep(cs[k], cs[k + 1], p);
    OpenedAtNeverChanges(cs, steps, k + 1, j, p, uid);
  }

  /** Step `k` gave the Poll the phase it has had since. */
  ghost predicate PhaseSet(cs: seq<State>, steps: seq<Step>, k: nat, j: nat, p: string, uid: nat)
    requires j <= |steps|
  {
    && k < j && Lives(cs, k, j, p, uid) && steps[k] == DoPoll(p)
    && cs[k].polls[p].status.phase != cs[j].polls[p].status.phase
    && forall m | k < m <= j :: cs[m].polls[p].status.phase == cs[j].polls[p].status.phase
  }

  /**
   The Ready condition carries the clock of the reconcile that gave the Poll its
   phase, and while the Poll is Closed that is its closedAt.
   */
  lemma {:induction false} PhaseIsDated(cs: seq<State>, steps: seq<Step>, k: nat, j: nat, p: string, uid: nat)
    requires IsRun(cs, steps) && Initial(cs[0]) && j <= |steps| && PhaseSet(cs, steps, k, j, p, uid)
    ensures var status := cs[j].polls[p].status;
            && |status.conditions| == 1 && status.conditions[0].ctype == Ready
            && status.conditions[0].lastTransitionTime == cs[k].now
            && (status.phase == PollClosed ==> status.closedAt == Some(cs[k].now))
    decreases j
  {
    hide IsRun, Initial, PollStep;
    StepInRun(cs, steps, j - 1, p);
    ClosedHasStamp(cs, steps, k, p);
    RunLength(cs, steps);
    if k < j - 1 {
      PhaseIsDated(cs, steps, k, j - 1, p, uid);
    }
    if steps[j - 1] == DoPoll(p) {
      RecordsStep(cs[j - 1], cs[j], p);
    } else {
      UntouchedStep(cs[j - 1], steps[j - 1], cs[j], p);
    }
  }

  /** Every phase that shows was set by such a reconcile. */
  lemma {:induction false} PhaseWasSet(cs: seq<State>, steps: seq<Step>, j: nat, p: string)
    requires IsRun(cs, steps) && Initial(cs[0]) && j <= |steps| && |cs| == |steps| + 1
    requires p in cs[j].polls && cs[j].polls[p].status.phase != NoPollPhase
    ensures exists k: nat :: PhaseSet(cs, steps, k, j, p, cs[j].polls[p].uid)
  {
    hide IsRun, Inv, Apply, Enabled, PollStep;
    assert j > 0;
    RunKeepsInv(cs, steps, j - 1);
    StepOfRun(cs, steps, j - 1);
    PollChanges(cs[j - 1], steps[j - 1], p);
    var uid := cs[j].polls[p].uid;
    if cs[j - 1].polls[p].status.phase == cs[j].polls[p].status.phase {
      PhaseWasSet(cs, steps, j - 1, p);
      var k: nat :| PhaseSet(cs, steps, k, j - 1, p, uid);
      assert PhaseSet(cs, steps, k, j, p, uid);
    } else {
      assert PhaseSet(cs, steps, j - 1, j, p, uid);
    }
  }

  // ---------- Timers over a run ----------

  /** The step reconciles `p` while it is open, and it closes at `due`. */
  ghost predicate Arms(c: State, s: Step, p: string, due: Time) {
    s == DoPoll(p) && p in c.polls && c.polls[p].spec.closesAt == Some(due) && c.now < due
  }

  /** Step `k` asked for a wake-up of `p` at `due`; its timer has not fired nor the manager restarted since. */
  ghost predicate ArmedSince(cs: seq<State>, steps: seq<Step>, k: nat, i: nat, p: string, due: Time)
    requires i <= |steps| && |cs| == |steps| + 1
  {
    && k < i && Arms(cs[k], steps[k], p, due)
    && forall m | k < m < i :: steps[m] != FireTimer(p) && steps[m] != Restart
  }

  lemma TimerStep(c: State, s: Step, p: string)
    requires Inv(c) && Enabled(c, s)
    ensures var d := Apply(c, s);
            if s == FireTimer(p) || s == Restart then p !in d.timers
            else if s == DoPoll(p) && p in c.polls && Arms(c, s, p, ClosingOf(c, p)) then
              var due := ClosingOf(c, p);
              && p in d.timers
              && d.timers[p] == if p in c.timers && c.timers[p] < due then c.timers[p] else due
            else (p in d.timers <==> p in c.timers) && (p in c.timers ==> d.timers[p] == c.timers[p])
  {
    hide Inv, Apply, Enabled;
    if s.DoPoll? {
      ReconciledTimers(c, s.p);
    } else if s.DoResponse? {
      ResponseKeepsTimers(c, s.r);
    } else {
      OtherTimers(c, s);
    }
    StepIsReconcile(c, s);
  }

  lemma StepIsReconcile(c: State, s: Step)
    requires Enabled(c, s)
    ensures s.DoPoll? ==> Apply(c, s) == ReconcilePoll(c, s.p)
    ensures s.DoResponse? ==> Apply(c, s) == ReconcileResponse(c, s.r)
  {
    hide ReconcilePoll, ReconcileResponse;
  }

  lemma OtherTimers(c: State, s: Step)
    requires Enabled(c, s) && !Reconcile(s)
    ensures Apply(c, s).timers == if s.FireTimer? then c.timers - {s.p} else if s.Restart? then map[] else c.timers
  {
    hide AdmittedPoll, AdmittedResponse, KeepsTypes, ResponsesTo, PollOf, ReconcilePoll, ReconcileResponse;
  }

  ghost function ClosingOf(c: State, p: string): Time
    requires p in c.polls
  {
    if c.polls[p].spec.closesAt.Some? then c.polls[p].spec.closesAt.value else c.now
  }

  lemma ReconciledTimers(c: State, p: string)
    requires Inv(c)
    ensures var d := ReconcilePoll(c, p);
            && d.timers - {p} == c.timers - {p}
            && d.timers == if p !in c.polls || ClosingOf(c, p) <= c.now then c.timers
                           else if p in c.timers && c.timers[p] < ClosingOf(c, p) then c.timers
                           else c.timers[p := ClosingOf(c, p)]
  {
    if p in c.polls {
      assert PollOk(c, p);
      PollOutcome(c, p);
    }
    hide Inv, PollOk, PollTarget, PollSettled, Armed;
  }

  lemma ResponseKeepsTimers(c: State, r: string)
    ensures ReconcileResponse(c, r).timers == c.timers
  {
    hide ResponseTarget, RC.StatusEqual;
  }

  /**
   A Poll has a timer exactly when some reconcile since its timer last fired, or
   the manager restarted, found it open with a closing time; and the timer stands
   at the earliest of these closing times, even if closesAt has moved since.
   */
  lemma {:induction false} TimerIsEarliestClosing(cs: seq<State>, steps: seq<Step>, i: nat, p: string)
    requires IsRun(cs, steps) && Initial(cs[0]) && i <= |steps| && |cs| == |steps| + 1
    ensures p in cs[i].timers ==> exists k: nat :: ArmedSince(cs, steps, k, i, p, cs[i].timers[p])
    ensures forall k: nat, due | ArmedSince(cs, steps, k, i, p, due) :: p in cs[i].timers && cs[i].timers[p] <= due
  {
    hide IsRun, Inv, Apply, Enabled;
    if i > 0 {
      var c, s := cs[i - 1], steps[i - 1];
      RunKeepsInv(cs, steps, i - 1);
      StepOfRun(cs, steps, i - 1);
      TimerStep(c, s, p);
      TimerIsEarliestClosing(cs, steps, i - 1, p);
      hide Arms;
      if p in cs[i].timers {
        TimerHasSource(cs, steps, i - 1, i, p);
      }
      forall k: nat, due | ArmedSince(cs, steps, k, i, p, due)
        ensures p in cs[i].timers && cs[i].timers[p] <= due
      {
        assert k < i - 1 ==> ArmedSince(cs, steps, k, i - 1, p, due);
        ArmsOnce(c, s, p, due);
      }
    }
  }

  lemma ArmsOnce(c: State, s: Step, p: string, due: Time)
    ensures Arms(c, s, p, due) ==> p in c.polls && due == ClosingOf(c, p) && s == DoPoll(p)
  {
  }

  lemma TimerHasSource(cs: seq<State>, steps: seq<Step>, j: nat, i: nat, p: string)
    requires i == j + 1 <= |steps| && |cs| == |steps| + 1 && p in cs[i].timers
    requires Inv(cs[j]) && Enabled(cs[j], steps[j]) && cs[i] == Apply(cs[j], steps[j])
    requires p in cs[j].timers ==> exists k: nat :: ArmedSince(cs, steps, k, j, p, cs[j].timers[p])
    ensures exists k: nat :: ArmedSince(cs, steps, k, i, p, cs[i].timers[p])
  {
    hide Inv, Apply, Enabled;
    TimerStep(cs[j], steps[j], p);
    if p in cs[j].timers && cs[i].timers[p] == cs[j].timers[p] {
      var k: nat :| ArmedSince(cs, steps, k, j, p, cs[j].timers[p]);
      assert ArmedSince(cs, steps, k, i, p, cs[i].timers[p]);
    } else {
      assert ArmedSince(cs, steps, j, i, p, cs[i].timers[p]);
    }
  }

  // ---------- Recorded closings ----------

  /** Throughout, `p` is stored under this uid with this closesAt. */
  ghost predicate ClosesAtFixed(cs: seq<State>, i: nat, j: nat, p: string, uid: nat, closesAt: Option<Time>) {
    && Lives(cs, i, j, p, uid)
    && forall k | i <= k <= j :: cs[k].polls[p].spec.closesAt == closesAt
  }

  lemma ShorterRun(cs: seq<State>, steps: seq<Step>, i: nat, j: nat, p: string, uid: nat, closesAt: Option<Time>)
    requires IsRun(cs, steps) && i < j && ClosesAtFixed(cs, i, j, p, uid, closesAt)
    ensures 0 < j <= |steps| && |cs| == |steps| + 1
    ensures ClosesAtFixed(cs, i, j - 1, p, uid, closesAt)
    ensures forall k | j - 1 <= k <= j ::
              p in cs[k].polls && cs[k].polls[p].uid == uid && cs[k].polls[p].spec.closesAt == closesAt
  {
    hide Enabled, Apply;
  }

  lemma ClosedHasStamp(cs: seq<State>, steps: seq<Step>, i: nat, p: string)
    requires IsRun(cs, steps) && Initial(cs[0]) && i < |cs| && p in cs[i].polls
    ensures cs[i].polls[p].status.phase == PollClosed <==> cs[i].polls[p].status.closedAt.Some?
  {
    hide IsRun, Initial;
    PhaseAndTimestamps(cs, steps, i, p);
  }

  lemma ClosedStep(c: State, s: Step, d: State, p: string)
    requires p in c.polls && p in d.polls && PollStep(c, s, d, p)
    requires c.polls[p].spec.closesAt == d.polls[p].spec.closesAt
    requires c.polls[p].status.phase == PollClosed && ClosedNow(c, p) && c.polls[p].status.closedAt.Some?
    ensures d.polls[p].status.phase == PollClosed && ClosedNow(d, p)
    ensures d.polls[p].status.closedAt == c.polls[p].status.closedAt
  {
  }

  /** While closesAt stays, a recorded closing stays, with its time. */
  lemma {:induction false} ClosedIsAbsorbing(cs: seq<State>, steps: seq<Step>, i: nat, j: nat, p: string, uid: nat,
                                             closesAt: Option<Time>)
    requires IsRun(cs, steps) && Initial(cs[0]) && ClosesAtFixed(cs, i, j, p, uid, closesAt)
    requires cs[i].polls[p].status.phase == PollClosed && ClosedNow(cs[i], p)
    ensures cs[j].polls[p].status.phase == PollClosed && ClosedNow(cs[j], p)
    ensures cs[j].polls[p].status.closedAt == cs[i].polls[p].status.closedAt
    decreases j
  {
    hide IsRun, Initial, PollStep, ClosedNow;
    if i < j {
      ShorterRun(cs, steps, i, j, p, uid, closesAt);
      ClosedIsAbsorbing(cs, steps, i, j - 1, p, uid, closesAt);
      ClosedHasStamp(cs, steps, j - 1, p);
      StepInRun(cs, steps, j - 1, p);
      ClosedStep(cs[j - 1], steps[j - 1], cs[j], p);
    }
  }

  /** If the closing is recorded, it is recorded at or after closesAt. */
  ghost predicate NotEarly(c: State, p: string)
    requires p in c.polls
  {
    var status := c.polls[p].status;
    status.phase == PollClosed ==>
      ClosedNow(c, p) && status.closedAt.Some? && status.closedAt.value >= c.polls[p].spec.closesAt.value
  }

  lemma OpenIsNotEarly(c: State, p: string)
    requires p in c.polls
    ensures c.polls[p].status.phase != PollClosed ==> NotEarly(c, p)
  {
  }

  lemma NotEarlyStep(c: State, s: Step, d: State, p: string)
    requires p in c.polls && p in d.polls && PollStep(c, s, d, p)
    requires c.polls[p].spec.closesAt == d.polls[p].spec.closesAt
    requires NotEarly(c, p) && (c.polls[p].status.closedAt.Some? ==> c.polls[p].status.phase == PollClosed)
    ensures NotEarly(d, p)
  {
  }

  /** While closesAt stays, a closing that is recorded meanwhile is not before it. */
  lemma {:induction false} ClosedAtIsNotEarly(cs: seq<State>, steps: seq<Step>, i: nat, j: nat, p: string, uid: nat,
                                              closesAt: Option<Time>)
    requires IsRun(cs, steps) && Initial(cs[0]) && ClosesAtFixed(cs, i, j, p, uid, closesAt)
    requires cs[i].polls[p].status.phase != PollClosed
    ensures NotEarly(cs[j], p)
    decreases j
  {
    hide IsRun, Initial, PollStep, ClosedNow, NotEarly;
    assert i == j ==> NotEarly(cs[j], p) by { OpenIsNotEarly(cs[i], p); }
    if i < j {
      ShorterRun(cs, steps, i, j, p, uid, closesAt);
      ClosedAtIsNotEarly(cs, steps, i, j - 1, p, uid, closesAt);
      ClosedHasStamp(cs, steps, j - 1, p);
      StepInRun(cs, steps, j - 1, p);
      NotEarlyStep(cs[j - 1], steps[j - 1], cs[j], p);
    }
  }

  /**
   A closing time that moves but passes again before the next reconcile keeps
   the old stamp: then closedAt lies before closesAt.
   */
  lemma MovedClosingKeepsOldStamp(c: State, p: string, spec: PollSpec, elapsed: nat)
    requires Inv(c) && Enabled(c, UpdatePoll(p, spec)) && spec != c.polls[p].spec
    requires c.polls[p].status.phase == PollClosed && c.polls[p].status.closedAt.Some?
    requires spec.closesAt.Some? && c.polls[p].status.closedAt.value < spec.closesAt.value <= c.now + elapsed
    ensures var c1 := Apply(c, UpdatePoll(p, spec));
            var c2 := Apply(c1, Tick(elapsed));
            && Enabled(c2, DoPoll(p))
            && var c3 := Apply(c2, DoPoll(p));
               && p in c3.polls && c3.polls[p].spec == spec && c3.polls[p].status.phase == PollClosed
               && c3.polls[p].status.closedAt.Some? && c3.polls[p].status.closedAt.value < spec.closesAt.value
  {
    hide Inv, ReconcilePoll;
    var c1 := Apply(c, UpdatePoll(p, spec));
    EditedPoll(c, p, spec);
    StepKeepsInv(c1, Tick(elapsed));
    ReconciledPhase(Apply(c1, Tick(elapsed)), p);
  }

  // ---------- When the closing time is recorded right ----------

  /**
   A reconcile of a closed Poll leaves a closedAt that is not before closesAt if
   and only if there was no closedAt yet, or one that lay at or after closesAt.
   */
  lemma StampIsRightIff(c: State, p: string)
    requires Inv(c) && p in c.polls && ClosedNow(c, p)
    ensures var before, after := c.polls[p].status, ReconcilePoll(c, p).polls;
            && p in after && after[p].spec == c.polls[p].spec && after[p].status.closedAt.Some?
            && var closesAt := c.polls[p].spec.closesAt.value;
               (after[p].status.closedAt.value >= closesAt <==>
                before.closedAt.None? || before.closedAt.value >= closesAt)
  {
    hide Inv, ReconcilePoll;
    ReconciledPhase(c, p);
  }

  /** Some reconcile of `p` between the states `i` and `j` found it open. */
  ghost predicate SeenOpen(cs: seq<State>, steps: seq<Step>, i: nat, j: nat, p: string)
    requires j <= |cs| && j <= |steps|
  {
    exists k | i <= k < j :: steps[k] == DoPoll(p) && !ClosedNow(cs[k], p)
  }

  /** What has to be known of the past for the stamp to be right. */
  ghost predicate StampIsDue(cs: seq<State>, steps: seq<Step>, i: nat, j: nat, p: string, due: Time)
    requires i <= j <= |steps| && j <= |cs| && i < |cs| && p in cs[i].polls
  {
    var before := cs[i].polls[p].status.closedAt;
    before.None? || before.value >= due || SeenOpen(cs, steps, i, j, p)
  }

  lemma SeenOpenStep(cs: seq<State>, steps: seq<Step>, i: nat, j: nat, p: string)
    requires i < j <= |steps| && j <= |cs|
    ensures SeenOpen(cs, steps, i, j, p) <==>
            SeenOpen(cs, steps, i, j - 1, p) || (steps[j - 1] == DoPoll(p) && !ClosedNow(cs[j - 1], p))
  {
    hide ClosedNow;
  }

  lemma StampStep(c: State, s: Step, d: State, p: string, due: Time)
    requires p in c.polls && p in d.polls && PollStep(c, s, d, p)
    requires c.polls[p].spec.closesAt == Some(due)
    ensures var before, after := c.polls[p].status.closedAt, d.polls[p].status.closedAt;
            if s != DoPoll(p) then after == before
            else if !ClosedNow(c, p) then after == None
            else if before.Some? then after == before else after.Some? && after.value >= due
  {
  }

  lemma {:induction false} StampOverRun(cs: seq<State>, steps: seq<Step>, i: nat, j: nat, p: string, uid: nat,
                                        due: Time)
    requires IsRun(cs, steps) && Initial(cs[0]) && ClosesAtFixed(cs, i, j, p, uid, Some(due)) && |cs| == |steps| + 1
    ensures var after := cs[j].polls[p].status.closedAt;
            if after.None? then StampIsDue(cs, steps, i, j, p, due)
            else after.value >= due <==> StampIsDue(cs, steps, i, j, p, due)
    decreases j
  {
    hide IsRun, Initial, PollStep, ClosedNow, SeenOpen;
    if i < j {
      ShorterRun(cs, steps, i, j, p, uid, Some(due));
      StampOverRun(cs, steps, i, j - 1, p, uid, due);
      StepInRun(cs, steps, j - 1, p);
      StampStep(cs[j - 1], steps[j - 1], cs[j], p, due);
      SeenOpenStep(cs, steps, i, j, p);
    } else {
      NothingSeen(cs, steps, i, p);
    }
  }

  lemma NothingSeen(cs: seq<State>, steps: seq<Step>, i: nat, p: string)
    requires i <= |steps| && i <= |cs|
    ensures !SeenOpen(cs, steps, i, i, p)
  {
  }

  /**
   While closesAt stays, the closing is recorded at or after it if and only if the
   stamp was right or absent at the beginning, or some reconcile in between found
   the Poll open and so cleared the old stamp.
   */
  lemma StampStaysRightIff(cs: seq<State>, steps: seq<Step>, i: nat, j: nat, p: string, uid: nat, due: Time)
    requires IsRun(cs, steps) && Initial(cs[0]) && ClosesAtFixed(cs, i, j, p, uid, Some(due))
    requires cs[j].polls[p].status.phase == PollClosed
    ensures cs[j].polls[p].status.closedAt.Some?
    ensures var before := cs[i].polls[p].status.closedAt;
            cs[j].polls[p].status.closedAt.value >= due <==>
            || before.None? || before.value >= due
            || exists k | i <= k < j :: steps[k] == DoPoll(p) && !ClosedNow(cs[k], p)
  {
    hide IsRun, Initial, PollStep, ClosedNow, Inv;
    RunLength(cs, steps);
    ClosedHasStamp(cs, steps, j, p);
    StampOverRun(cs, steps, i, j, p, uid, due);
  }

  lemma EditedPoll(c: State, p: string, spec: PollSpec)
    requires Inv(c) && Enabled(c, UpdatePoll(p, spec)) && spec != c.polls[p].spec
    ensures var d := Apply(c, UpdatePoll(p, spec));
            && Inv(d) && p in d.polls && p in d.pollQueue && d.now == c.now
            && d.polls[p].spec == spec && d.polls[p].status == c.polls[p].status
  {
    hide Inv, AdmittedPoll, KeepsTypes, ResponsesTo;
    StepKeepsInv(c, UpdatePoll(p, spec));
  }

  /** Closed is not terminal: moving closesAt to the future reopens the Poll, and only openedAt remembers. */
  lemma ClosedPollReopens(c: State, p: string, spec: PollSpec)
    requires Inv(c) && Enabled(c, UpdatePoll(p, spec)) && spec != c.polls[p].spec
    requires c.polls[p].status.phase == PollClosed && c.polls[p].status.openedAt.Some?
    requires !RC.ClosedAt(spec, c.now)
    ensures var c1 := Apply(c, UpdatePoll(p, spec));
            && Enabled(c1, DoPoll(p))
            && var c2 := Apply(c1, DoPoll(p));
               && p in c2.polls && c2.polls[p].status.phase == PollOpen && c2.polls[p].status.closedAt == None
               && c2.polls[p].status.openedAt == c.polls[p].status.openedAt
  {
    hide Inv, ReconcilePoll;
    EditedPoll(c, p, spec);
    ReconciledPhase(Apply(c, UpdatePoll(p, spec)), p);
  }

  lemma ReconciledPhase(c: State, p: string)
    requires Inv(c) && p in c.polls
    ensures var d := ReconcilePoll(c, p);
            && p in d.polls && d.polls[p].spec == c.polls[p].spec
            && Records(c, p, d.polls[p].status)
  {
    assert PollOk(c, p);
    hide Inv, ReconcilePoll, PollSettled, Armed, Records, PollTarget, ResponsesTo;
    PollOutcome(c, p);
    TargetRecords(c, p);
  }

  // ---------- The specs of a Poll over a run ----------

  ghost function SpecsOf(cs: seq<State>, i: nat, j: nat, p: string, uid: nat): seq<PollSpec>
    requires Lives(cs, i, j, p, uid)
  {
    seq(j - i + 1, k requires 0 <= k <= j - i => cs[i + k].polls[p].spec)
  }

  lemma KeepsOwnTypes(spec: PollSpec)
    requires UniqueIds(spec)
    ensures KeepsTypes(spec, spec)
  {
    var ids := QuestionIds(spec.questions);
    assert forall k | 0 <= k < |ids| :: ids[k] == spec.questions[k].id;
  }

  lemma SpecStep(c: State, s: Step, p: string)
    requires Inv(c) && Enabled(c, s) && p in c.polls && p in Apply(c, s).polls
    requires Apply(c, s).polls[p].uid == c.polls[p].uid
    ensures KeepsTypes(c.polls[p].spec, Apply(c, s).polls[p].spec)
  {
    assert AdmittedPoll(c.polls[p].spec) by { assert PollOk(c, p); }
    KeepsOwnTypes(c.polls[p].spec);
    hide Inv, Apply, PollTarget, AdmittedPoll, AdmittedResponse, KeepsTypes;
    PollsAfterStep(c, s);
  }

  /**
   The specs a Poll has during its life form a chain of admitted updates, so
   that its question types are stable over every run.
   */
  lemma SpecsFormUpdateChain(cs: seq<State>, steps: seq<Step>, i: nat, j: nat, p: string, uid: nat)
    requires IsRun(cs, steps) && Initial(cs[0]) && Lives(cs, i, j, p, uid)
    ensures UpdateChain(SpecsOf(cs, i, j, p, uid))
  {
    hide IsRun, Initial, Inv, AdmittedPoll, KeepsTypes, Apply, Enabled;
    RunLength(cs, steps);
    var specs := SpecsOf(cs, i, j, p, uid);
    forall k | 0 <= k < |specs| ensures AdmittedPoll(specs[k]) {
      RunKeepsInv(cs, steps, i + k);
      SpecIsAdmitted(cs[i + k], p);
    }
    forall k | 0 <= k < |specs| - 1 ensures KeepsTypes(specs[k], specs[k + 1]) {
      RunKeepsInv(cs, steps, i + k);
      StepOfRun(cs, steps, i + k);
      SpecStep(cs[i + k], steps[i + k], p);
      assert specs[k + 1] == cs[i + k + 1].polls[p].spec;
    }
  }

  lemma SpecIsAdmitted(c: State, p: string)
    requires Inv(c) && p in c.polls
    ensures AdmittedPoll(c.polls[p].spec)
  {
    assert PollOk(c, p);
  }

  lemma StepOfRun(cs: seq<State>, steps: seq<Step>, k: nat)
    requires IsRun(cs, steps) && k < |steps|
    ensures |cs| == |steps| + 1 && Enabled(cs[k], steps[k]) && cs[k + 1] == Apply(cs[k], steps[k])
  {
  }
}
