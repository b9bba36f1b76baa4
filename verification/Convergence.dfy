/** The two reconcilers watch each other's writes, and yet their work runs out. */
module Convergence {
  import opened Model
  import opened PollWebhook
  import RC = PollResponseController
  import PL = PollStatusLaws
  import opened StoreTally
  import opened Cluster
  import opened WakeUps
  import opened Quiescence

  // ---------- The work that is left ----------

  ghost function UnsettledPolls(c: State): set<string> {
    set p | p in c.polls && !PollSettled(c, p, ClosedNow(c, p))
  }

  ghost predicate Unsettled(c: State, r: string)
    requires r in c.responses
  {
    !ResponseSettled(c.polls, c.responses[r], ClosedNow(c, c.responses[r].spec.pollRef))
  }

  ghost function UnsettledResponses(c: State): set<string> {
    set r | r in c.responses && Unsettled(c, r)
  }

  /** Writing a response may unsettle its Poll, never the other way round: that is why a response weighs two. */
  ghost function Work(c: State): nat {
    2 * |UnsettledResponses(c)| + |UnsettledPolls(c)|
  }

  ghost predicate WillClose(c: State, p: string) {
    p in c.polls && c.polls[p].spec.closesAt.Some? && !ClosedNow(c, p)
  }

  ghost function OpenPolls(c: State): set<string> {
    set p | p in c.polls && WillClose(c, p)
  }

  ghost function OpenResponses(c: State): set<string> {
    set r | r in c.responses && WillClose(c, c.responses[r].spec.pollRef)
  }

  /** The work that is left, and the work that closings to come will cause. */
  ghost function Budget(c: State): nat {
    Work(c) + 2 * |OpenResponses(c)| + |OpenPolls(c)|
  }

  lemma BudgetIsBounded(c: State)
    ensures Budget(c) <= 4 * |c.responses| + 2 * |c.polls|
  {
    hide Unsettled, PollSettled, WillClose, ClosedNow;
    SubsetSize(UnsettledResponses(c), c.responses.Keys);
    SubsetSize(OpenResponses(c), c.responses.Keys);
    SubsetSize(UnsettledPolls(c), c.polls.Keys);
    SubsetSize(OpenPolls(c), c.polls.Keys);
  }

  // ---------- What a step does to it ----------

  ghost predicate Reconcile(s: Step) {
    s.DoPoll? || s.DoResponse?
  }

  /** A reconcile that changes a stored object. */
  ghost predicate Effective(c: State, s: Step)
    requires Enabled(c, s)
  {
    Reconcile(s) && (Apply(c, s).polls != c.polls || Apply(c, s).responses != c.responses)
  }

  /** Only status and owner of stored objects differ, so specs, names and sizes stay. */
  ghost predicate SameSpecs(c: State, d: State) {
    && c.now == d.now
    && c.polls.Keys == d.polls.Keys && c.responses.Keys == d.responses.Keys
    && (forall p | p in c.polls :: d.polls[p].spec == c.polls[p].spec && d.polls[p].uid == c.polls[p].uid)
    && (forall r | r in c.responses :: d.responses[r].spec == c.responses[r].spec)
  }

  /** A Poll status is read by no other reconcile: neither of another Poll nor of any response. */
  lemma PollStatusIsPrivate(c: State, d: State, p: string, status: PollStatus)
    requires p in c.polls && d.polls == c.polls[p := c.polls[p].(status := status)]
    requires d.responses == c.responses && d.now == c.now
    ensures SameSpecs(c, d)
    ensures UnsettledResponses(d) == UnsettledResponses(c)
    ensures UnsettledPolls(d) - {p} == UnsettledPolls(c) - {p}
  {
    hide PL.Settled, RC.Shows, RC.Verdict, StoreRows, StoreTotal;
    forall r | r in c.responses ensures Unsettled(d, r) <==> Unsettled(c, r) {
    }
    forall x | x in c.polls && x != p
      ensures PollSettled(d, x, ClosedNow(d, x)) <==> PollSettled(c, x, ClosedNow(c, x))
    {
    }
    hide Unsettled, PollSettled, ClosedNow;
  }

  /** The owner and status of a response are read by its own Poll only. */
  lemma ResponseIsReadByItsPoll(c: State, d: State, r: string, resp: PollResponse)
    requires r in c.responses && d.responses == c.responses[r := resp] && resp.spec == c.responses[r].spec
    requires d.polls == c.polls && d.now == c.now
    ensures SameSpecs(c, d)
    ensures UnsettledResponses(d) - {r} == UnsettledResponses(c) - {r}
    ensures UnsettledPolls(d) <= UnsettledPolls(c) + {resp.spec.pollRef}
  {
    hide PL.Settled, RC.Shows, RC.Verdict, StoreRows, StoreTotal;
    forall x | x in c.responses && x != r ensures Unsettled(d, x) <==> Unsettled(c, x) {
    }
    assert d.responses - {r} == c.responses - {r};
    forall p | p in c.polls && p != resp.spec.pollRef
      ensures PollSettled(d, p, ClosedNow(d, p)) <==> PollSettled(c, p, ClosedNow(c, p))
    {
      OthersUnchanged(c.responses, d.responses, r, p);
      TallyDependsOnOwnResponses(c.responses, d.responses, p, c.polls[p].spec.questions);
    }
    hide Unsettled, PollSettled, ClosedNow;
  }

  lemma PollStepSettles(c: State, p: string)
    requires Inv(c) && p in c.polls
    ensures var d := ReconcilePoll(c, p);
            && SameSpecs(c, d) && d.responses == c.responses
            && UnsettledResponses(d) == UnsettledResponses(c)
            && UnsettledPolls(d) == UnsettledPolls(c) - {p}
  {
    var d := ReconcilePoll(c, p);
    assert PollOk(c, p);
    hide PollOk, ReconcilePoll, PollTarget, Inv, PollSettled, Armed, RC.ClosedAt, ResponsesTo;
    PollOutcome(c, p);
    PollStatusIsPrivate(c, d, p, PollTarget(c, p));
    assert p !in UnsettledPolls(d);
    hide UnsettledPolls, UnsettledResponses, SameSpecs;
  }

  lemma PollStepEffect(c: State, p: string)
    requires Inv(c) && p in c.pollQueue
    ensures var d := ReconcilePoll(c, p);
            && SameSpecs(c, d) && d.responses == c.responses
            && UnsettledResponses(d) == UnsettledResponses(c)
            && UnsettledPolls(d) == UnsettledPolls(c) - {p}
            && (d.polls != c.polls <==> p in UnsettledPolls(c))
            && if d.polls == c.polls
               then d.pollQueue == c.pollQueue - {p} && d.responseQueue == c.responseQueue
               else d.pollQueue == c.pollQueue && d.responseQueue <= c.responseQueue + c.responses.Keys
  {
    hide PollOk, PollTarget, Inv, PollSettled, ClosedNow, SameSpecs, UnsettledResponses, UnsettledPolls;
    var d := ReconcilePoll(c, p);
    if p in c.polls {
      PollStepSettles(c, p);
      PollStepQueues(c, p);
    } else {
      SamePollsUnsettled(c, d);
      assert p !in UnsettledPolls(c) by { UnsettledPollsExist(c); }
    }
  }

  lemma UnsettledPollsExist(c: State)
    ensures UnsettledPolls(c) <= c.polls.Keys
  {
    hide PollSettled, ClosedNow;
  }

  lemma PollStepQueues(c: State, p: string)
    requires Inv(c) && p in c.pollQueue && p in c.polls
    ensures var d := ReconcilePoll(c, p);
            && (d.polls != c.polls <==> p in UnsettledPolls(c))
            && if d.polls == c.polls
               then d.pollQueue == c.pollQueue - {p} && d.responseQueue == c.responseQueue
               else d.pollQueue == c.pollQueue && d.responseQueue <= c.responseQueue + c.responses.Keys
  {
    assert PollOk(c, p);
    hide PollOk, ReconcilePoll, PollTarget, Inv, PollSettled, ClosedNow, Armed, ResponsesTo;
    PollOutcome(c, p);
    assert c.pollQueue + {p} == c.pollQueue;
    assert ResponsesTo(c.responses, p) <= c.responses.Keys by { ResponsesToExist(c, p); }
  }

  lemma ResponsesToExist(c: State, p: string)
    ensures ResponsesTo(c.responses, p) <= c.responses.Keys
  {
  }

  lemma ResponseStepEffect(c: State, r: string)
    requires Inv(c) && r in c.responseQueue
    ensures var d := ReconcileResponse(c, r);
            && SameSpecs(c, d) && d.polls == c.polls && d.timers == c.timers
            && UnsettledResponses(d) == UnsettledResponses(c) - {r}
            && (d.responses != c.responses <==> r in UnsettledResponses(c))
            && if d.responses == c.responses
               then d.responseQueue == c.responseQueue - {r} && d.pollQueue == c.pollQueue
                    && UnsettledPolls(d) == UnsettledPolls(c)
               else d.responseQueue == c.responseQueue && r in c.responses
                    && d.pollQueue <= c.pollQueue + {c.responses[r].spec.pollRef}
                    && UnsettledPolls(d) <= UnsettledPolls(c) + {c.responses[r].spec.pollRef}
  {
    var d := ReconcileResponse(c, r);
    if r in c.responses {
      assert ResponseOk(c, r);
      ResponseOutcome(c, r);
      ResponseTargetSettles(c, c.responses[r]);
      ResponseIsReadByItsPoll(c, d, r, ResponseTarget(c, c.responses[r]));
      assert r !in UnsettledResponses(d);
      hide ResponseOk, ReconcileResponse, Inv, PollSettled, ResponseSettled, ResponseTarget, ClosedNow, SameSpecs;
      hide RC.Coherent, RC.StatusEqual;
      if d.responses == c.responses {
        SamePollsUnsettled(c, d);
      }
    } else {
      SamePollsUnsettled(c, d);
    }
  }

  lemma SamePollsUnsettled(c: State, d: State)
    requires d.polls == c.polls && d.responses == c.responses && d.now == c.now
    ensures UnsettledPolls(d) == UnsettledPolls(c)
    ensures UnsettledResponses(d) == UnsettledResponses(c)
    ensures SameSpecs(c, d)
  {
    hide PL.Settled, RC.Shows, RC.Verdict, StoreRows, StoreTotal;
  }

  // ---------- Controllers on their own: every schedule settles ----------

  ghost function DueTimers(c: State): set<string> {
    set p | p in c.timers && c.timers[p] <= c.now
  }

  /** Drops with every reconcile: an effective one leaves less work, any other one a shorter queue. */
  ghost function Measure(c: State): nat {
    Weigh(Work(c), |c.responses| + |c.polls| + 1, Queued(c))
  }

  ghost function Queued(c: State): nat {
    |c.pollQueue| + |c.responseQueue|
  }

  ghost function Weigh(work: nat, n: nat, queued: nat): nat {
    work * n + queued
  }

  lemma Lighter(work: nat, work': nat, n: nat, queued: nat, queued': nat)
    requires (work' < work && queued' < queued + n) || (work' <= work && queued' < queued)
    ensures Weigh(work', n, queued') < Weigh(work, n, queued)
  {
    if work' < work {
      assert (work' + 1) * n == work' * n + n;
      assert (work' + 1) * n <= work * n;
    } else {
      assert work' * n == work * n;
    }
  }

  lemma MeasureIsBounded(c: State)
    ensures Measure(c) <= Weigh(2 * |c.responses| + |c.polls|, |c.responses| + |c.polls| + 1, Queued(c))
  {
    hide Unsettled, PollSettled, ClosedNow;
    SubsetSize(UnsettledResponses(c), c.responses.Keys);
    SubsetSize(UnsettledPolls(c), c.polls.Keys);
    assert |c.responses.Keys| == |c.responses| && |c.polls.Keys| == |c.polls|;
    assert Work(c) <= 2 * |c.responses| + |c.polls|;
    MoreWork(Work(c), 2 * |c.responses| + |c.polls|, |c.responses| + |c.polls| + 1);
  }

  lemma MoreWork(less: nat, more: nat, n: nat)
    requires less <= more
    ensures less * n <= more * n
  {
  }

  lemma UnionSize<T>(a: set<T>, b: set<T>)
    ensures |a + b| <= |a| + |b|
  {
    assert a + b == a + (b - a);
    SubsetSize(b - a, b);
  }

  lemma WithinUnion<T>(s: set<T>, a: set<T>, b: set<T>)
    requires s <= a + b
    ensures |s| <= |a| + |b|
  {
    SubsetSize(s, a + b);
    UnionSize(a, b);
  }

  lemma WithoutOne<T>(s: set<T>, x: T)
    ensures |s - {x}| == |s| - if x in s then 1 else 0
  {
    if x !in s {
      assert s - {x} == s;
    }
  }

  lemma SizesStay(c: State, d: State)
    requires SameSpecs(c, d)
    ensures |d.responses| == |c.responses| && |d.polls| == |c.polls|
  {
    assert |d.responses.Keys| == |c.responses.Keys| && |d.polls.Keys| == |c.polls.Keys|;
  }

  lemma PollStepWork(c: State, p: string)
    requires Inv(c) && p in c.pollQueue
    ensures var d := ReconcilePoll(c, p); Work(d) == Work(c) - if d.polls != c.polls then 1 else 0
  {
    hide Inv, UnsettledPolls, UnsettledResponses, ReconcilePoll, SameSpecs;
    PollStepEffect(c, p);
    WithoutOne(UnsettledPolls(c), p);
  }

  lemma PollStepQueued(c: State, p: string)
    requires Inv(c) && p in c.pollQueue
    ensures var d := ReconcilePoll(c, p);
            if d.polls != c.polls then Queued(d) <= Queued(c) + |c.responses| else Queued(d) < Queued(c)
  {
    hide Inv, UnsettledPolls, UnsettledResponses, ReconcilePoll, SameSpecs;
    PollStepEffect(c, p);
    var d := ReconcilePoll(c, p);
    if d.polls != c.polls {
      WithinUnion(d.responseQueue, c.responseQueue, c.responses.Keys);
    } else {
      WithoutOne(c.pollQueue, p);
    }
  }

  lemma PollStepDecreases(c: State, p: string)
    requires Inv(c) && p in c.pollQueue
    ensures Measure(ReconcilePoll(c, p)) < Measure(c)
  {
    hide Inv, UnsettledPolls, UnsettledResponses, ReconcilePoll, SameSpecs, Weigh, Work, Queued;
    var d := ReconcilePoll(c, p);
    PollStepEffect(c, p);
    SizesStay(c, d);
    PollStepWork(c, p);
    PollStepQueued(c, p);
    Lighter(Work(c), Work(d), |c.responses| + |c.polls| + 1, Queued(c), Queued(d));
  }

  lemma ResponseStepWork(c: State, r: string)
    requires Inv(c) && r in c.responseQueue
    ensures var d := ReconcileResponse(c, r); Work(d) <= Work(c) - if d.responses != c.responses then 1 else 0
  {
    hide Inv, UnsettledPolls, UnsettledResponses, ReconcileResponse, SameSpecs;
    ResponseStepEffect(c, r);
    var d := ReconcileResponse(c, r);
    WithoutOne(UnsettledResponses(c), r);
    if d.responses != c.responses {
      WithinUnion(UnsettledPolls(d), UnsettledPolls(c), {c.responses[r].spec.pollRef});
    }
  }

  lemma ResponseStepQueued(c: State, r: string)
    requires Inv(c) && r in c.responseQueue
    ensures var d := ReconcileResponse(c, r);
            if d.responses != c.responses then Queued(d) <= Queued(c) + 1 && r in c.responses
            else Queued(d) < Queued(c)
  {
    hide Inv, UnsettledPolls, UnsettledResponses, ReconcileResponse, SameSpecs;
    ResponseStepEffect(c, r);
    var d := ReconcileResponse(c, r);
    if d.responses != c.responses {
      WithinUnion(d.pollQueue, c.pollQueue, {c.responses[r].spec.pollRef});
    } else {
      WithoutOne(c.responseQueue, r);
    }
  }

  lemma ResponseStepDecreases(c: State, r: string)
    requires Inv(c) && r in c.responseQueue
    ensures Measure(ReconcileResponse(c, r)) < Measure(c)
  {
    hide Inv, UnsettledPolls, UnsettledResponses, ReconcileResponse, SameSpecs, Weigh, Work, Queued;
    var d := ReconcileResponse(c, r);
    ResponseStepEffect(c, r);
    SizesStay(c, d);
    ResponseStepWork(c, r);
    ResponseStepQueued(c, r);
    assert r in c.responses ==> |c.responses| > 0;
    Lighter(Work(c), Work(d), |c.responses| + |c.polls| + 1, Queued(c), Queued(d));
  }

  /** A reconcile may set a timer, but none that is due already. */
  lemma ReconcileSetsNoDueTimer(c: State, s: Step)
    requires Enabled(c, s) && Reconcile(s)
    ensures DueTimers(Apply(c, s)) == DueTimers(c)
  {
    hide PollTarget, ResponseTarget, ResponsesTo;
  }

  /** What controllers do without waiting: take a key from a queue, or let a due timer fire. */
  ghost predicate Pending(s: Step) {
    Reconcile(s) || s.FireTimer?
  }

  /** A due timer weighs two, as firing it may add one key to a queue. */
  ghost function Backlog(c: State): nat {
    Measure(c) + 2 * |DueTimers(c)|
  }

  lemma StepDecreases(c: State, s: Step)
    requires Inv(c) && Enabled(c, s) && Reconcile(s)
    ensures Measure(Apply(c, s)) < Measure(c)
  {
    hide Inv, Measure, ReconcilePoll, ReconcileResponse;
    if s.DoPoll? {
      PollStepDecreases(c, s.p);
    } else {
      ResponseStepDecreases(c, s.r);
    }
  }

  /** A bound on the length of a schedule, in numbers of objects, queued keys and due timers. */
  lemma BacklogIsBounded(c: State)
    ensures var n, m := |c.responses|, |c.polls|;
            Backlog(c) <= (2 * n + m) * (n + m + 1) + |c.pollQueue| + |c.responseQueue| + 2 * |DueTimers(c)|
    ensures |DueTimers(c)| <= |c.timers|
  {
    MeasureIsBounded(c);
    SubsetSize(DueTimers(c), c.timers.Keys);
    hide Measure, DueTimers;
    assert |c.timers.Keys| == |c.timers|;
  }

  lemma FiringEffect(c: State, p: string)
    requires Enabled(c, FireTimer(p))
    ensures var d := Apply(c, FireTimer(p));
            && d.polls == c.polls && d.responses == c.responses && d.now == c.now
            && d.responseQueue == c.responseQueue && d.pollQueue == c.pollQueue + {p}
            && DueTimers(d) == DueTimers(c) - {p} && p in DueTimers(c)
  {
  }

  lemma FiringDecreases(c: State, p: string)
    requires Enabled(c, FireTimer(p))
    ensures Backlog(Apply(c, FireTimer(p))) < Backlog(c)
  {
    hide Weigh, Work, DueTimers, Enabled, Apply, UnsettledPolls, UnsettledResponses, SameSpecs;
    var d := Apply(c, FireTimer(p));
    FiringEffect(c, p);
    SamePollsUnsettled(c, d);
    SameWork(c, d);
    WithoutOne(DueTimers(c), p);
    UnionSize(c.pollQueue, {p});
    OneMoreQueued(Work(c), |c.responses| + |c.polls| + 1, Queued(c), Queued(d));
  }

  lemma OneMoreQueued(work: nat, n: nat, queued: nat, queued': nat)
    requires queued' <= queued + 1
    ensures Weigh(work, n, queued') <= Weigh(work, n, queued) + 1
  {
  }

  lemma PendingDecreases(c: State, s: Step)
    requires Inv(c) && Enabled(c, s) && Pending(s)
    ensures Backlog(Apply(c, s)) < Backlog(c)
  {
    hide Inv, Measure, DueTimers, Enabled, Apply;
    if s.FireTimer? {
      FiringDecreases(c, s.p);
    } else {
      StepDecreases(c, s);
      ReconcileSetsNoDueTimer(c, s);
    }
  }

  lemma {:induction false} ScheduleMakesProgress(cs: seq<State>, steps: seq<Step>, k: nat)
    requires IsRun(cs, steps) && k <= |steps| && forall i | 0 <= i < |steps| :: Pending(steps[i])
    requires Inv(cs[0])
    ensures Inv(cs[k])
    ensures Backlog(cs[k]) + k <= Backlog(cs[0])
  {
    hide Inv, Backlog, Apply, Pending;
    if k > 0 {
      ScheduleMakesProgress(cs, steps, k - 1);
      var c, s := cs[k - 1], steps[k - 1];
      assert cs[k - 1 + 1] == Apply(c, s);
      StepKeepsInv(c, s);
      PendingDecreases(c, s);
    }
  }

  ghost predicate NothingPending(c: State) {
    forall p :: !Enabled(c, DoPoll(p)) && !Enabled(c, DoResponse(p)) && !Enabled(c, FireTimer(p))
  }

  /**
   The mutual watch loop terminates: whatever the order in which keys are taken
   from the queues and due timers fire, the number of these steps is bounded, and
   once there is none left to take the cluster is quiet, so that its results are right.
   */
  lemma EveryScheduleSettles(cs: seq<State>, steps: seq<Step>)
    requires IsRun(cs, steps) && forall i | 0 <= i < |steps| :: Pending(steps[i])
    requires Inv(cs[0])
    ensures |steps| <= Backlog(cs[0])
    ensures var c := cs[0];
            var n, m := |c.responses|, |c.polls|;
            |steps| <= (2 * n + m) * (n + m + 1) + |c.pollQueue| + |c.responseQueue| + 2 * |DueTimers(c)|
    ensures Inv(cs[|steps|])
    ensures NothingPending(cs[|steps|]) ==> Quiet(cs[|steps|])
  {
    hide Inv, Backlog, Apply, Enabled, Quiet, NothingPending;
    ScheduleMakesProgress(cs, steps, |steps|);
    BacklogIsBounded(cs[0]);
    IdleIsQuiet(cs[|steps|]);
  }

  lemma IdleIsQuiet(c: State)
    ensures NothingPending(c) <==> Quiet(c)
  {
    if NothingPending(c) {
      forall p ensures p !in c.pollQueue && p !in c.responseQueue && (p in c.timers ==> c.timers[p] > c.now) {
        assert !Enabled(c, DoPoll(p)) && !Enabled(c, DoResponse(p)) && !Enabled(c, FireTimer(p));
      }
    }
  }

  // ---------- Runs in which time passes ----------

  /** Everything but what users do. */
  ghost predicate ControllerStep(s: Step) {
    s.Tick? || s.FireTimer? || s.Resync? || s.Restart? || Reconcile(s)
  }

  lemma ClosingsMoveTheBudget(a: set<string>, a': set<string>, open: set<string>, open': set<string>)
    requires open' <= open && a' <= a + (open - open')
    ensures |a'| + |open'| <= |a| + |open|
  {
    WithinUnion(a', a, open - open');
    assert |open - open'| == |open| - |open'|;
  }

  lemma TickBudget(c: State, elapsed: nat)
    ensures Budget(c.(now := c.now + elapsed)) <= Budget(c)
  {
    var d := c.(now := c.now + elapsed);
    TickUnsettles(c, elapsed);
    hide UnsettledPolls, UnsettledResponses, OpenPolls, OpenResponses;
    ClosingsMoveTheBudget(UnsettledPolls(c), UnsettledPolls(d), OpenPolls(c), OpenPolls(d));
    ClosingsMoveTheBudget(UnsettledResponses(c), UnsettledResponses(d), OpenResponses(c), OpenResponses(d));
  }

  /** The clock unsettles only what closes while it moves. */
  lemma TickUnsettles(c: State, elapsed: nat)
    ensures var d := c.(now := c.now + elapsed);
            && OpenPolls(d) <= OpenPolls(c)
            && OpenResponses(d) <= OpenResponses(c)
            && UnsettledPolls(d) <= UnsettledPolls(c) + (OpenPolls(c) - OpenPolls(d))
            && UnsettledResponses(d) <= UnsettledResponses(c) + (OpenResponses(c) - OpenResponses(d))
  {
    var d := c.(now := c.now + elapsed);
    hide PL.Settled, RC.Shows, RC.Verdict, StoreRows, StoreTotal;
    forall p | p in c.polls && ClosedNow(c, p) == ClosedNow(d, p)
      ensures PollSettled(d, p, ClosedNow(d, p)) <==> PollSettled(c, p, ClosedNow(c, p))
    {
    }
    forall r | && r in c.responses
               && ClosedNow(c, c.responses[r].spec.pollRef) == ClosedNow(d, c.responses[r].spec.pollRef)
      ensures Unsettled(d, r) <==> Unsettled(c, r)
    {
    }
    hide PollSettled, Unsettled;
  }

  lemma SameSpecsSameOpen(c: State, d: State)
    requires SameSpecs(c, d)
    ensures OpenPolls(d) == OpenPolls(c) && OpenResponses(d) == OpenResponses(c)
  {
    forall p ensures WillClose(d, p) <==> WillClose(c, p) {
    }
    hide WillClose;
  }

  lemma PollStepSpendsBudget(c: State, p: string)
    requires Inv(c) && p in c.pollQueue
    ensures var d := ReconcilePoll(c, p);
            Budget(d) + (if d.polls != c.polls || d.responses != c.responses then 1 else 0) <= Budget(c)
  {
    hide Inv, ReconcilePoll, Work, OpenPolls, OpenResponses, SameSpecs, UnsettledPolls, UnsettledResponses;
    PollStepEffect(c, p);
    SameSpecsSameOpen(c, ReconcilePoll(c, p));
    PollStepWork(c, p);
  }

  lemma ResponseStepSpendsBudget(c: State, r: string)
    requires Inv(c) && r in c.responseQueue
    ensures var d := ReconcileResponse(c, r);
            Budget(d) + (if d.polls != c.polls || d.responses != c.responses then 1 else 0) <= Budget(c)
  {
    hide Inv, ReconcileResponse, Work, OpenPolls, OpenResponses, SameSpecs, UnsettledPolls, UnsettledResponses;
    ResponseStepEffect(c, r);
    SameSpecsSameOpen(c, ReconcileResponse(c, r));
    ResponseStepWork(c, r);
  }

  lemma SameObjectsSameBudget(c: State, d: State)
    requires d.polls == c.polls && d.responses == c.responses && d.now == c.now
    ensures Budget(d) == Budget(c)
  {
    hide Work, OpenPolls, OpenResponses, UnsettledPolls, UnsettledResponses;
    SamePollsUnsettled(c, d);
    SameSpecsSameOpen(c, d);
    SameWork(c, d);
  }

  lemma StepSpendsBudget(c: State, s: Step)
    requires Inv(c) && Enabled(c, s) && ControllerStep(s)
    ensures Budget(Apply(c, s)) + (if Effective(c, s) then 1 else 0) <= Budget(c)
  {
    hide Inv, ReconcilePoll, ReconcileResponse, Budget;
    match s
    case Tick(elapsed) => TickBudget(c, elapsed);
    case DoPoll(p) => PollStepSpendsBudget(c, p);
    case DoResponse(r) => ResponseStepSpendsBudget(c, r);
    case FireTimer(_) => SameObjectsSameBudget(c, Apply(c, s));
    case Resync(_, _) => SameObjectsSameBudget(c, Apply(c, s));
    case Restart => SameObjectsSameBudget(c, Apply(c, s));
    case _ =>
  }

  lemma SameWork(c: State, d: State)
    requires UnsettledPolls(d) == UnsettledPolls(c) && UnsettledResponses(d) == UnsettledResponses(c)
    ensures Work(d) == Work(c)
  {
  }

  /** How many of the first `k` steps changed the store. */
  ghost function Writes(cs: seq<State>, steps: seq<Step>, k: nat): nat
    requires IsRun(cs, steps) && k <= |steps|
  {
    if k == 0 then 0
    else Writes(cs, steps, k - 1) + if Effective(cs[k - 1], steps[k - 1]) then 1 else 0
  }

  lemma {:induction false} RunSpendsBudget(cs: seq<State>, steps: seq<Step>, k: nat)
    requires IsRun(cs, steps) && k <= |steps| && forall i | 0 <= i < |steps| :: ControllerStep(steps[i])
    requires Inv(cs[0])
    ensures Inv(cs[k]) && Writes(cs, steps, k) + Budget(cs[k]) <= Budget(cs[0])
  {
    hide Inv, Budget, Apply, Effective, ControllerStep;
    if k > 0 {
      RunSpendsBudget(cs, steps, k - 1);
      assert cs[k - 1 + 1] == Apply(cs[k - 1], steps[k - 1]);
      StepKeepsInv(cs[k - 1], steps[k - 1]);
      StepSpendsBudget(cs[k - 1], steps[k - 1]);
    }
  }

  /**
   With the specs left alone, but time passing, timers firing and controllers
   restarting, n responses and m Polls are written at most 4n + 2m times,
   however long the run is.
   */
  lemma WritesAreBounded(cs: seq<State>, steps: seq<Step>)
    requires IsRun(cs, steps) && forall i | 0 <= i < |steps| :: ControllerStep(steps[i])
    requires Inv(cs[0])
    ensures Writes(cs, steps, |steps|) <= 4 * |cs[0].responses| + 2 * |cs[0].polls|
  {
    hide Inv, Budget, Writes, ControllerStep;
    RunSpendsBudget(cs, steps, |steps|);
    BudgetIsBounded(cs[0]);
  }
}
