/**
 The invariant of the state machine, and what follows from it in every
 reachable state: no wake-up is lost, and once the queues are empty the stored
 statuses are right.
 */
module WakeUps {
  import opened Model
  import opened PollWebhook
  import opened PollResponseWebhook
  import PC = PollController
  import RC = PollResponseController
  import PL = PollStatusLaws
  import opened StoreTally
  import opened Cluster

  // ---------- Settled objects ----------

  /** The status of `p` is what a reconcile would write while the Poll is closed, or open. */
  ghost predicate PollSettled(c: State, p: string, closed: bool)
    requires p in c.polls
  {
    var poll := c.polls[p];
    PL.Settled(poll.status, closed, poll.generation,
               StoreRows(c.responses, p, poll.spec.questions), StoreTotal(c.responses, p))
  }

  /** The same for a response: its owner is set and it shows the verdict of today's specs. */
  ghost predicate ResponseSettled(polls: map<string, Poll>, resp: PollResponse, closed: bool) {
    var ref := resp.spec.pollRef;
    if ref !in polls then RC.Shows(resp.status, Some(NotFound(ref)), 0, resp.generation)
    else
      && resp.owner == Some(polls[ref].uid)
      && RC.Shows(resp.status, RC.Verdict(polls[ref].spec, resp.spec.answers, closed),
                  polls[ref].generation, resp.generation)
  }

  ghost predicate ClosedNow(c: State, p: string) {
    p in c.polls && RC.ClosedAt(c.polls[p].spec, c.now)
  }

  ghost predicate Due(c: State, p: string) {
    p in c.timers && c.timers[p] <= c.now
  }

  /** A timer will bring the Poll back by the time it closes. */
  ghost predicate Armed(c: State, p: string)
    requires p in c.polls
  {
    c.polls[p].spec.closesAt.Some? ==> p in c.timers && c.timers[p] <= c.polls[p].spec.closesAt.value
  }

  /** The next reconcile of the Poll cannot fail to write that it is closed. */
  ghost predicate MustRecordClosing(poll: Poll) {
    || poll.status.phase != PollClosed
    || poll.status.conditions == []
    || poll.status.conditions[0].observedGeneration != poll.generation
  }

  // ---------- The invariant ----------

  ghost predicate PollOk(c: State, p: string)
    requires p in c.polls
  {
    var poll := c.polls[p];
    && p != "" && AdmittedPoll(poll.spec) && poll.generation >= 1 && poll.uid < c.nextUid
    && PL.Coherent(poll.status, poll.spec, poll.generation)
    && (!MustRecordClosing(poll) ==> RC.ClosedAt(poll.spec, c.now))
  }

  /** In the queue, or settled as closed for good, or settled as open with a timer for the closing. */
  ghost predicate PollAwake(c: State, p: string)
    requires p in c.polls
  {
    || p in c.pollQueue
    || (PollSettled(c, p, true) && ClosedNow(c, p))
    || (PollSettled(c, p, false) && Armed(c, p))
  }

  ghost predicate ResponseOk(c: State, r: string)
    requires r in c.responses
  {
    var resp := c.responses[r];
    && AdmittedResponse(resp.spec) && RC.Coherent(resp.status)
    && (resp.owner.Some? ==> resp.owner.value < c.nextUid)
  }

  /**
   In the queue, or settled; or settled as long as the Poll was open, and then
   the Poll has yet to record its closing, which will wake the response.
   */
  ghost predicate ResponseAwake(c: State, r: string)
    requires r in c.responses
  {
    var resp := c.responses[r];
    var ref := resp.spec.pollRef;
    || r in c.responseQueue
    || (ResponseSettled(c.polls, resp, true) && ClosedNow(c, ref))
    || (ResponseSettled(c.polls, resp, false) && (ClosedNow(c, ref) ==> MustRecordClosing(c.polls[ref])))
  }

  ghost predicate Inv(c: State) {
    && (forall p | p in c.polls :: PollOk(c, p) && PollAwake(c, p))
    && (forall r | r in c.responses :: ResponseOk(c, r) && ResponseAwake(c, r))
  }

  // ---------- Every step keeps it ----------

  /** Objects that a step does not touch stay as they are, unless what they depend on moves. */
  lemma PollFrame(c: State, d: State, p: string)
    requires p in c.polls && p in d.polls && d.polls[p] == c.polls[p]
    requires PollOk(c, p) && PollAwake(c, p)
    requires d.now >= c.now && d.nextUid >= c.nextUid
    requires p in c.pollQueue ==> p in d.pollQueue
    requires p in c.timers ==> p in d.pollQueue || (p in d.timers && d.timers[p] <= c.timers[p])
    requires p in d.pollQueue || SameResponsesTo(c.responses, d.responses, p)
    ensures PollOk(d, p) && PollAwake(d, p)
  {
    hide PL.Coherent, AdmittedPoll, PL.Settled;
    if p !in d.pollQueue {
      TallyDependsOnOwnResponses(c.responses, d.responses, p, c.polls[p].spec.questions);
    }
  }

  lemma ResponseFrame(c: State, d: State, r: string)
    requires r in c.responses && r in d.responses && d.responses[r] == c.responses[r]
    requires ResponseOk(c, r) && ResponseAwake(c, r)
    requires d.now >= c.now && d.nextUid >= c.nextUid
    requires r in c.responseQueue ==> r in d.responseQueue
    requires var ref := c.responses[r].spec.pollRef;
             r in d.responseQueue
             || (ref !in c.polls && ref !in d.polls)
             || (ref in c.polls && ref in d.polls && c.polls[ref] == d.polls[ref] && PollOk(c, ref))
    ensures ResponseOk(d, r) && ResponseAwake(d, r)
  {
    hide RC.Coherent, AdmittedResponse, PL.Coherent, AdmittedPoll, RC.Shows, RC.Verdict;
  }

  /** A change to one Poll that raises its event. */
  lemma PollChangeKeepsInv(c: State, d: State, p: string)
    requires Inv(c)
    requires d.now == c.now && d.responses == c.responses && d.nextUid >= c.nextUid
    requires d.polls - {p} == c.polls - {p}
    requires d.timers - {p} == c.timers - {p}
    requires d.pollQueue == c.pollQueue + {p}
    requires d.responseQueue == c.responseQueue + ResponsesTo(c.responses, p)
    requires p in d.polls ==> PollOk(d, p)
    ensures Inv(d)
  {
    hide PollOk, PollAwake, ResponseOk, ResponseAwake;
    forall x | x in d.polls ensures PollOk(d, x) && PollAwake(d, x) {
      if x == p {
        QueuedIsAwake(d, p);
      } else {
        assert x in d.polls - {p} && (d.polls - {p})[x] == (c.polls - {p})[x];
        assert x in c.timers ==> x in d.timers - {p} && (d.timers - {p})[x] == (c.timers - {p})[x];
        PollFrame(c, d, x);
      }
    }
    forall r | r in d.responses ensures ResponseOk(d, r) && ResponseAwake(d, r) {
      var ref := c.responses[r].spec.pollRef;
      assert ref != p ==> (ref in c.polls <==> ref in c.polls - {p}) && (ref in d.polls <==> ref in d.polls - {p});
      assert ref != p && ref in c.polls ==> (d.polls - {p})[ref] == (c.polls - {p})[ref];
      ResponseFrame(c, d, r);
    }
  }

  lemma QueuedIsAwake(c: State, p: string)
    requires p in c.polls && p in c.pollQueue
    ensures PollAwake(c, p)
  {
  }

  lemma QueuedResponseIsAwake(c: State, r: string)
    requires r in c.responses && r in c.responseQueue
    ensures ResponseAwake(c, r)
  {
  }

  /** A change to one response that raises its event. */
  lemma ResponseChangeKeepsInv(c: State, d: State, r: string, ref: string)
    requires Inv(c)
    requires d.now == c.now && d.polls == c.polls && d.timers == c.timers && d.nextUid == c.nextUid
    requires d.responses - {r} == c.responses - {r}
    requires r in c.responses ==> c.responses[r].spec.pollRef == ref
    requires r in d.responses ==> d.responses[r].spec.pollRef == ref
    requires d.pollQueue == c.pollQueue + PollOf(ref)
    requires d.responseQueue == c.responseQueue + {r}
    requires r in d.responses ==> ResponseOk(d, r)
    ensures Inv(d)
  {
    forall x | x in d.polls ensures PollOk(d, x) && PollAwake(d, x) {
      assert x != "";
      if x != ref {
        OthersUnchanged(c.responses, d.responses, r, x);
      }
      PollFrame(c, d, x);
    }
    hide PollOk, PollAwake, ResponseOk, ResponseAwake;
    forall x | x in d.responses ensures ResponseOk(d, x) && ResponseAwake(d, x) {
      if x == r {
        QueuedResponseIsAwake(d, r);
      } else {
        assert x in d.responses - {r} && (d.responses - {r})[x] == (c.responses - {r})[x];
        ResponseFrame(c, d, x);
      }
    }
  }

  lemma OthersUnchanged(a: Store, b: Store, r: string, p: string)
    requires a - {r} == b - {r}
    requires r in a ==> a[r].spec.pollRef != p
    requires r in b ==> b[r].spec.pollRef != p
    ensures SameResponsesTo(a, b, p)
  {
    forall x | x in a && a[x].spec.pollRef == p ensures x in b && b[x] == a[x] {
      assert x in a - {r} && (a - {r})[x] == (b - {r})[x];
    }
    forall x | x in b && b[x].spec.pollRef == p ensures x in a && a[x] == b[x] {
      assert x in b - {r} && (a - {r})[x] == (b - {r})[x];
    }
  }

  // ---------- Reconciles ----------

  /** The status a reconcile aims at settles the Poll, and differs from the stored one unless that is settled. */
  lemma PollTargetSettles(c: State, p: string)
    requires p in c.polls && PollOk(c, p)
    ensures var poll, target := c.polls[p], PollTarget(c, p);
            && (PC.StatusEqual(poll.status, target) <==> poll.status == target)
            && (poll.status == target <==> PollSettled(c, p, ClosedNow(c, p)))
            && PL.Settled(target, ClosedNow(c, p), poll.generation,
                          StoreRows(c.responses, p, poll.spec.questions), StoreTotal(c.responses, p))
            && target.phase == (if ClosedNow(c, p) then PollClosed else PollOpen)
  {
    var poll := c.polls[p];
    var rows, total := StoreRows(c.responses, p, poll.spec.questions), StoreTotal(c.responses, p);
    StoreRowsShape(c.responses, p, poll.spec);
    PL.SkippedWriteLosesNothing(poll.status, poll.spec, ClosedNow(c, p), poll.generation, rows, total, c.now);
    PL.DesiredIsSettled(poll.status, poll.spec, ClosedNow(c, p), poll.generation, rows, total, c.now);
    hide PL.Coherent, AdmittedPoll, PL.ShapedLike, PL.RecordedOn;
    hide PC.StatusEqual, PC.DesiredStatus, StoreRows, StoreTotal;
  }

  /**
   What one reconcile of a Poll does: it settles the status, and raises the event
   unless it was settled before. A Poll that is open comes back at closesAt, or at
   the time that is pending already if that is earlier; nothing else sets a timer.
   */
  lemma PollOutcome(c: State, p: string)
    requires p in c.polls && PollOk(c, p)
    ensures var d, closed := ReconcilePoll(c, p), ClosedNow(c, p);
            && d.now == c.now && d.responses == c.responses && d.nextUid == c.nextUid
            && d.polls == c.polls[p := c.polls[p].(status := PollTarget(c, p))]
            && PollSettled(d, p, closed)
            && d.timers - {p} == c.timers - {p}
            && (!closed ==> Armed(d, p))
            && d.timers == (var due := c.polls[p].spec.closesAt;
                            if due.None? || due.value <= c.now then c.timers
                            else if p in c.timers && c.timers[p] < due.value then c.timers
                            else c.timers[p := due.value])
            && if PollSettled(c, p, closed)
               then d.polls == c.polls && d.pollQueue == c.pollQueue - {p} && d.responseQueue == c.responseQueue
               else d.polls != c.polls && d.pollQueue == c.pollQueue + {p}
                    && d.responseQueue == c.responseQueue + ResponsesTo(c.responses, p)
  {
    hide PollOk, PL.Settled, StoreRows, StoreTotal, PollTarget, PersistStatus, ResponsesTo, PC.StatusEqual;
    PollTargetSettles(c, p);
    PersistOutcome(c, p);
    ArmOnce(c.timers, p);
  }

  lemma ArmOnce(timers: map<string, Time>, p: string)
    ensures p in timers ==> timers[p := timers[p]] == timers
  {
  }

  lemma PersistOutcome(c: State, p: string)
    requires p in c.polls
    requires PC.StatusEqual(c.polls[p].status, PollTarget(c, p)) <==> c.polls[p].status == PollTarget(c, p)
    ensures var poll, target := c.polls[p], PollTarget(c, p);
            var d := PersistStatus(c.(pollQueue := c.pollQueue - {p}), p, target);
            && d.now == c.now && d.responses == c.responses && d.nextUid == c.nextUid && d.timers == c.timers
            && d.polls == c.polls[p := poll.(status := target)]
            && if poll.status == target
               then d.polls == c.polls && d.pollQueue == c.pollQueue - {p} && d.responseQueue == c.responseQueue
               else d.polls != c.polls && d.pollQueue == c.pollQueue + {p}
                    && d.responseQueue == c.responseQueue + ResponsesTo(c.responses, p)
  {
    hide PC.StatusEqual, PollTarget, ResponsesTo;
    var poll, target := c.polls[p], PollTarget(c, p);
    assert poll.(status := poll.status) == poll;
    assert c.polls[p := poll] == c.polls;
    assert c.polls[p := poll.(status := target)][p].status == target;
    assert c.pollQueue - {p} + {p} == c.pollQueue + {p};
  }

  lemma WrittenStatusIsCoherent(c: State, p: string)
    requires p in c.polls && PollOk(c, p)
    ensures PollOk(c.(polls := c.polls[p := c.polls[p].(status := PollTarget(c, p))]), p)
  {
    var poll := c.polls[p];
    var rows, total := StoreRows(c.responses, p, poll.spec.questions), StoreTotal(c.responses, p);
    StoreRowsShape(c.responses, p, poll.spec);
    PL.DesiredIsSettled(poll.status, poll.spec, ClosedNow(c, p), poll.generation, rows, total, c.now);
    hide AdmittedPoll, PL.ShapedLike, StoreRows, StoreTotal, PC.DesiredStatus;
  }

  lemma ReconcilePollKeepsInv(c: State, p: string)
    requires Inv(c) && p in c.pollQueue
    ensures Inv(ReconcilePoll(c, p))
  {
    var d := ReconcilePoll(c, p);
    if p in c.polls {
      assert PollOk(c, p);
      PollOutcome(c, p);
      WrittenStatusIsCoherent(c, p);
      SettledPollIsAwake(d, p);
      var e := c.(polls := c.polls[p := c.polls[p].(status := PollTarget(c, p))]);
      assert PollOk(e, p) ==> PollOk(d, p) by { hide PL.Coherent, AdmittedPoll, PollTarget; }
      hide PollOk, PollAwake, ResponseOk, ResponseAwake, PollSettled, Armed, PollTarget, ReconcilePoll, ResponsesTo;
      if PollSettled(c, p, ClosedNow(c, p)) {
        OthersKeepInv(c, d, p);
      } else {
        assert d.polls - {p} == c.polls - {p};
        PollChangeKeepsInv(c, d, p);
      }
    } else {
      OthersKeepInv(c, d, p);
    }
  }

  lemma SettledPollIsAwake(c: State, p: string)
    requires p in c.polls && PollSettled(c, p, ClosedNow(c, p)) && (!ClosedNow(c, p) ==> Armed(c, p))
    ensures PollAwake(c, p)
  {
  }

  /** Taking `p` from the queue, without writing, concerns `p` alone. */
  lemma OthersKeepInv(c: State, d: State, p: string)
    requires Inv(c)
    requires d.now == c.now && d.polls == c.polls && d.responses == c.responses && d.nextUid == c.nextUid
    requires d.timers - {p} == c.timers - {p} && d.pollQueue == c.pollQueue - {p} && d.responseQueue == c.responseQueue
    requires p in d.polls ==> PollOk(d, p) && PollAwake(d, p)
    ensures Inv(d)
  {
    hide PollOk, PollAwake, ResponseOk, ResponseAwake;
    forall x | x in d.polls && x != p ensures PollOk(d, x) && PollAwake(d, x) {
      assert x in c.timers ==> x in d.timers - {p} && (d.timers - {p})[x] == (c.timers - {p})[x];
      PollFrame(c, d, x);
    }
    forall r | r in d.responses ensures ResponseOk(d, r) && ResponseAwake(d, r) {
      ResponseFrame(c, d, r);
    }
  }

  /** What a reconcile aims at settles the response, and differs from what is stored unless that is settled. */
  lemma ResponseTargetSettles(c: State, resp: PollResponse)
    requires RC.Coherent(resp.status)
    ensures var target, closed := ResponseTarget(c, resp), ClosedNow(c, resp.spec.pollRef);
            && target.spec == resp.spec && target.generation == resp.generation
            && (RC.StatusEqual(resp.status, target.status) <==> resp.status == target.status)
            && (resp == target <==> ResponseSettled(c.polls, resp, closed))
            && ResponseSettled(c.polls, target, closed)
            && RC.Coherent(target.status)
  {
    var ref := resp.spec.pollRef;
    var verdict := if ref in c.polls then RC.Verdict(c.polls[ref].spec, resp.spec.answers, ClosedNow(c, ref))
                   else Some(NotFound(ref));
    var pollGen := if ref in c.polls then c.polls[ref].generation else 0;
    ResponseStatusOutcome(resp.status, verdict, pollGen, resp.generation, c.now);
    hide RC.Coherent, RC.Shows, RC.Verdict, RC.StatusEqual, RC.DesiredStatus, RC.ClosedAt;
  }

  /** What one reconcile of a response does: it settles owner and status, and writes unless they were settled before. */
  lemma ResponseOutcome(c: State, r: string)
    requires r in c.responses && ResponseOk(c, r)
    ensures var d, ref := ReconcileResponse(c, r), c.responses[r].spec.pollRef;
            var closed := ClosedNow(c, ref);
            && d.now == c.now && d.polls == c.polls && d.timers == c.timers && d.nextUid == c.nextUid
            && d.responses == c.responses[r := ResponseTarget(c, c.responses[r])]
            && ResponseSettled(d.polls, d.responses[r], closed)
            && RC.Coherent(d.responses[r].status)
            && if ResponseSettled(c.polls, c.responses[r], closed)
               then d.responses == c.responses && d.responseQueue == c.responseQueue - {r} && d.pollQueue == c.pollQueue
               else d.responses != c.responses && d.responseQueue == c.responseQueue + {r}
                    && d.pollQueue == c.pollQueue + PollOf(ref)
  {
    var resp := c.responses[r];
    var target := ResponseTarget(c, resp);
    ResponseTargetSettles(c, resp);
    hide RC.Coherent, RC.StatusEqual, ResponseSettled, ResponseTarget, AdmittedResponse, PollOf, ClosedNow;
    assert c.responseQueue - {r} + {r} == c.responseQueue + {r};
    assert target == resp ==> c.responses[r := target] == c.responses;
    assert target.status == resp.status ==> target == resp.(owner := target.owner);
  }

  lemma ResponseStatusOutcome(stored: ResponseStatus, verdict: Option<ValidationError>, pollGen: nat,
                              generation: nat, now: Time)
    requires RC.Coherent(stored)
    ensures var target := RC.DesiredStatus(stored, verdict, pollGen, generation, now);
            && RC.Shows(target, verdict, pollGen, generation) && RC.Coherent(target)
            && (RC.StatusEqual(stored, target) <==> stored == target)
            && (RC.StatusEqual(stored, target) <==> RC.Shows(stored, verdict, pollGen, generation))
  {
    var target := RC.DesiredStatus(stored, verdict, pollGen, generation, now);
    RC.DesiredShowsVerdict(stored, verdict, pollGen, generation, now);
    RC.ShowsIsCoherent(target, verdict, pollGen, generation);
    RC.CoherentTypes(stored);
    hide RC.Coherent, RC.Shows, RC.StatusEqual, RC.DesiredStatus;
    if RC.StatusEqual(stored, target) {
      RC.SkippedPatchLosesNothing(stored, verdict, pollGen, generation, now);
    }
    if RC.Shows(stored, verdict, pollGen, generation) {
      RC.ShownIsFixpoint(stored, verdict, pollGen, generation, now);
    }
    if stored == target {
      RC.ShownIsFixpoint(stored, verdict, pollGen, generation, now);
    }
  }

  lemma ReconcileResponseKeepsInv(c: State, r: string)
    requires Inv(c) && r in c.responseQueue
    ensures Inv(ReconcileResponse(c, r))
  {
    var d := ReconcileResponse(c, r);
    if r !in c.responses {
      DequeueResponse(c, d, r);
    } else {
      ResponseOutcome(c, r);
      var ref := c.responses[r].spec.pollRef;
      if ResponseSettled(c.polls, c.responses[r], ClosedNow(c, ref)) {
        assert ResponseAwake(d, r);
        DequeueResponse(c, d, r);
      } else {
        assert ref in c.polls ==> PollOk(c, ref);
        assert ResponseOk(d, r);
        hide PollOk, PollAwake, ResponseOk, ResponseAwake, ResponseSettled;
        assert d.responses - {r} == c.responses - {r};
        ResponseChangeKeepsInv(c, d, r, ref);
      }
    }
  }

  lemma DequeueResponse(c: State, d: State, r: string)
    requires Inv(c) && d == c.(responseQueue := c.responseQueue - {r})
    requires r in d.responses ==> ResponseAwake(d, r)
    ensures Inv(d)
  {
    hide PollOk, PollAwake, ResponseAwake;
    forall x | x in d.polls ensures PollOk(d, x) && PollAwake(d, x) {
      PollFrame(c, d, x);
    }
    forall x | x in d.responses && x != r ensures ResponseOk(d, x) && ResponseAwake(d, x) {
      ResponseFrame(c, d, x);
    }
  }

  // ---------- User and environment steps ----------

  lemma PollEditKeepsInv(c: State, s: Step)
    requires Inv(c) && Enabled(c, s) && (s.CreatePoll? || s.UpdatePoll? || s.DeletePoll?)
    ensures Inv(Apply(c, s))
  {
    hide PollOk, PollAwake, ResponseOk, ResponseAwake, Inv, AdmittedPoll, KeepsTypes, ResponsesTo;
    var d := Apply(c, s);
    EditedPollIsOk(c, s);
    if d != c {
      assert d.polls - {s.p} == c.polls - {s.p};
      PollChangeKeepsInv(c, d, s.p);
    }
  }

  lemma EditedPollIsOk(c: State, s: Step)
    requires Inv(c) && Enabled(c, s) && (s.CreatePoll? || s.UpdatePoll? || s.DeletePoll?)
    ensures s.p in Apply(c, s).polls ==> PollOk(Apply(c, s), s.p)
  {
    hide PollAwake, ResponseOk, ResponseAwake, AdmittedPoll, PL.ShapedLike, PL.RecordedOn;
    assert s.p in c.polls ==> PollOk(c, s.p);
  }

  lemma ResponseEditKeepsInv(c: State, s: Step)
    requires Inv(c) && Enabled(c, s) && (s.CreateResponse? || s.UpdateResponse? || s.DeleteResponse?)
    ensures Inv(Apply(c, s))
  {
    hide PollOk, PollAwake, ResponseOk, ResponseAwake, Inv, AdmittedResponse, PollOf;
    var d := Apply(c, s);
    EditedResponseIsOk(c, s);
    if d != c {
      assert d.responses - {s.r} == c.responses - {s.r};
      ResponseChangeKeepsInv(c, d, s.r, if s.CreateResponse? then s.rspec.pollRef else c.responses[s.r].spec.pollRef);
    }
  }

  lemma EditedResponseIsOk(c: State, s: Step)
    requires Inv(c) && Enabled(c, s) && (s.CreateResponse? || s.UpdateResponse? || s.DeleteResponse?)
    ensures s.r in Apply(c, s).responses ==> ResponseOk(Apply(c, s), s.r)
  {
    hide PollOk, PollAwake, ResponseAwake, AdmittedResponse, RC.Coherent;
    FreshStatusIsCoherent();
    assert s.r in c.responses ==> ResponseOk(c, s.r);
  }

  lemma FreshStatusIsCoherent()
    ensures RC.Coherent(EMPTY_RESPONSE_STATUS)
  {
  }

  lemma EnvironmentKeepsInv(c: State, s: Step)
    requires Inv(c) && Enabled(c, s) && (s.Tick? || s.FireTimer? || s.Resync? || s.Restart?)
    ensures Inv(Apply(c, s))
  {
    hide PollOk, PollAwake, ResponseOk, ResponseAwake, AdmittedPoll, AdmittedResponse, KeepsTypes;
    hide ReconcilePoll, ReconcileResponse, PollEvent, StoreResponse, ResponseEvent;
    var d := Apply(c, s);
    forall p | p in d.polls ensures PollOk(d, p) && PollAwake(d, p) {
      PollFrame(c, d, p);
    }
    forall r | r in d.responses ensures ResponseOk(d, r) && ResponseAwake(d, r) {
      ResponseFrame(c, d, r);
    }
  }

  lemma StepKeepsInv(c: State, s: Step)
    requires Inv(c) && Enabled(c, s)
    ensures Inv(Apply(c, s))
  {
    hide Inv;
    match s
    case CreatePoll(_, _) => PollEditKeepsInv(c, s);
    case UpdatePoll(_, _) => PollEditKeepsInv(c, s);
    case DeletePoll(_) => PollEditKeepsInv(c, s);
    case CreateResponse(_, _) => ResponseEditKeepsInv(c, s);
    case UpdateResponse(_, _) => ResponseEditKeepsInv(c, s);
    case DeleteResponse(_) => ResponseEditKeepsInv(c, s);
    case Tick(_) => EnvironmentKeepsInv(c, s);
    case FireTimer(_) => EnvironmentKeepsInv(c, s);
    case Resync(_, _) => EnvironmentKeepsInv(c, s);
    case Restart => EnvironmentKeepsInv(c, s);
    case DoPoll(p) => ReconcilePollKeepsInv(c, p);
    case DoResponse(r) => ReconcileResponseKeepsInv(c, r);
  }

  /** The invariant holds in every state of every run. */
  lemma {:induction false} RunKeepsInv(cs: seq<State>, steps: seq<Step>, i: nat)
    requires IsRun(cs, steps) && Initial(cs[0]) && i < |cs|
    ensures Inv(cs[i])
  {
    hide Inv;
    if i == 0 {
      InitialInv(cs[0]);
    } else {
      RunKeepsInv(cs, steps, i - 1);
      assert cs[i - 1 + 1] == Apply(cs[i - 1], steps[i - 1]);
      StepKeepsInv(cs[i - 1], steps[i - 1]);
    }
  }

  lemma InitialInv(c: State)
    requires Initial(c)
    ensures Inv(c)
  {
  }

  // ---------- Who is woken ----------

  ghost predicate OnPoll(s: Step, p: string) {
    (s.CreatePoll? || s.UpdatePoll? || s.DeletePoll? || s.DoPoll?) && s.p == p
  }

  ghost predicate OnResponse(s: Step, r: string) {
    (s.CreateResponse? || s.UpdateResponse? || s.DeleteResponse? || s.DoResponse?) && s.r == r
  }

  /**
   A step on a Poll that changes the store wakes that Poll and the responses that
   refer to it, and nothing else; a step that changes nothing wakes nothing.
   */
  lemma PollStepWakes(c: State, s: Step, p: string)
    requires Inv(c) && Enabled(c, s) && OnPoll(s, p)
    ensures var d := Apply(c, s);
            && (forall r :: r in d.responseQueue <==>
                  r in c.responseQueue
                  || (d.polls != c.polls && r in c.responses && c.responses[r].spec.pollRef == p))
            && (forall x :: x in d.pollQueue <==>
                  (x in c.pollQueue && s != DoPoll(x)) || (d.polls != c.polls && x == p))
  {
    if s.DoPoll? && p in c.polls {
      assert PollOk(c, p);
      PollOutcome(c, p);
      hide PollOk, PollSettled, PollTarget, ReconcilePoll, Armed;
    } else {
      EditChangesPolls(c, s, p);
    }
    hide Inv, AdmittedPoll, KeepsTypes;
  }

  lemma EditChangesPolls(c: State, s: Step, p: string)
    requires Enabled(c, s) && OnPoll(s, p) && (s.DoPoll? ==> p !in c.polls)
    ensures var d := Apply(c, s);
            && (d.polls == c.polls ==> d.responseQueue == c.responseQueue)
            && (d.polls == c.polls ==> d.pollQueue == c.pollQueue - if s.DoPoll? then {p} else {})
            && (d.polls != c.polls ==> d.responseQueue == c.responseQueue + ResponsesTo(c.responses, p))
            && (d.polls != c.polls ==> d.pollQueue == c.pollQueue + {p} && !s.DoPoll?)
  {
    hide AdmittedPoll, KeepsTypes, ResponsesTo;
    var d := Apply(c, s);
    if s.UpdatePoll? && s.spec != c.polls[p].spec {
      assert d.polls[p].spec != c.polls[p].spec;
    }
  }

  /** A step on a response that changes the store wakes that response and the Poll it refers to, and nothing else. */
  lemma ResponseStepWakes(c: State, s: Step, r: string)
    requires Inv(c) && Enabled(c, s) && OnResponse(s, r)
    ensures var d := Apply(c, s);
            && (forall x :: x in d.responseQueue <==>
                  (x in c.responseQueue && s != DoResponse(x)) || (d.responses != c.responses && x == r))
            && (forall p :: p in d.pollQueue <==>
                  p in c.pollQueue
                  || (d.responses != c.responses
                      && ((r in c.responses && c.responses[r].spec.pollRef == p)
                          || (r in d.responses && d.responses[r].spec.pollRef == p))))
  {
    if s.DoResponse? && r in c.responses {
      assert ResponseOk(c, r);
      ResponseOutcome(c, r);
      ResponseTargetSettles(c, c.responses[r]);
      hide ResponseSettled, ResponseTarget, ReconcileResponse, ClosedNow;
    } else {
      EditChangesResponses(c, s, r);
    }
    NamedPoll(c, s, r);
    hide Inv, ResponseOk, RC.Coherent, AdmittedResponse;
  }

  lemma NamedPoll(c: State, s: Step, r: string)
    requires Inv(c) && Enabled(c, s) && OnResponse(s, r)
    ensures r in c.responses ==> c.responses[r].spec.pollRef != ""
    ensures s.CreateResponse? ==> s.rspec.pollRef != ""
  {
    assert r in c.responses ==> ResponseOk(c, r);
    hide Inv, RC.Coherent;
  }

  lemma EditChangesResponses(c: State, s: Step, r: string)
    requires Enabled(c, s) && OnResponse(s, r) && (s.DoResponse? ==> r !in c.responses)
    ensures var d := Apply(c, s);
            && (d.responses == c.responses ==> d.pollQueue == c.pollQueue)
            && (d.responses == c.responses ==>
                  d.responseQueue == c.responseQueue - if s.DoResponse? then {r} else {})
            && (d.responses != c.responses ==> d.responseQueue == c.responseQueue + {r} && !s.DoResponse?)
            && (d.responses != c.responses ==>
                  var ref := if s.CreateResponse? then s.rspec.pollRef else c.responses[r].spec.pollRef;
                  && d.pollQueue == c.pollQueue + PollOf(ref)
                  && (r in d.responses ==> d.responses[r].spec.pollRef == ref))
  {
    hide AdmittedResponse, PollOf;
    var d := Apply(c, s);
    if s.UpdateResponse? && s.rspec != c.responses[r].spec {
      assert d.responses[r].spec != c.responses[r].spec;
    }
  }

  // ---------- No lost wake-ups ----------

  /** A reconcile of the object would change something in the store. */
  ghost predicate PollWouldWrite(c: State, p: string) {
    p in c.polls && ReconcilePoll(c, p).polls != c.polls
  }

  ghost predicate ResponseWouldWrite(c: State, r: string) {
    r in c.responses && ReconcileResponse(c, r).responses != c.responses
  }

  /**
   Whatever a reconcile would change is in a queue. What the passing of closesAt
   alone has made stale is the one exception: then the Poll has a timer due, it
   has yet to record its closing, and its next reconcile writes and so wakes all
   its responses.
   */
  lemma NoLostWakeUps(c: State)
    requires Inv(c)
    ensures forall p | PollWouldWrite(c, p) ::
              p in c.pollQueue || (ClosedNow(c, p) && Due(c, p) && PollSettled(c, p, false))
    ensures forall r | ResponseWouldWrite(c, r) ::
              || r in c.responseQueue
              || (var p := c.responses[r].spec.pollRef;
                  && ClosedNow(c, p) && ResponseSettled(c.polls, c.responses[r], false)
                  && (p in c.pollQueue || Due(c, p))
                  && PollWouldWrite(c, p) && r in ReconcilePoll(c, p).responseQueue)
  {
    forall p | PollWouldWrite(c, p)
      ensures p in c.pollQueue || (ClosedNow(c, p) && Due(c, p) && PollSettled(c, p, false))
    {
      assert PollOk(c, p) && PollAwake(c, p);
      PollOutcome(c, p);
      hide PollOk, PollSettled;
    }
    forall r | ResponseWouldWrite(c, r) && r !in c.responseQueue
      ensures var p := c.responses[r].spec.pollRef;
              && ClosedNow(c, p) && ResponseSettled(c.polls, c.responses[r], false)
              && (p in c.pollQueue || Due(c, p))
              && PollWouldWrite(c, p) && r in ReconcilePoll(c, p).responseQueue
    {
      StaleResponse(c, r);
    }
  }

  lemma StaleResponse(c: State, r: string)
    requires Inv(c) && ResponseWouldWrite(c, r) && r !in c.responseQueue
    ensures var p := c.responses[r].spec.pollRef;
            && ClosedNow(c, p) && ResponseSettled(c.polls, c.responses[r], false)
            && (p in c.pollQueue || Due(c, p))
            && PollWouldWrite(c, p) && r in ReconcilePoll(c, p).responseQueue
  {
    var p := c.responses[r].spec.pollRef;
    assert ResponseOk(c, r) && ResponseAwake(c, r);
    ResponseOutcome(c, r);
    assert ClosedNow(c, p) && MustRecordClosing(c.polls[p]);
    assert PollOk(c, p) && PollAwake(c, p);
    PollOutcome(c, p);
    hide PollOk, ResponseSettled, PL.Coherent;
    UnrecordedClosingIsUnsettled(c, p);
  }

  lemma UnrecordedClosingIsUnsettled(c: State, p: string)
    requires p in c.polls && MustRecordClosing(c.polls[p])
    ensures !PollSettled(c, p, true)
  {
  }
}
