/** The verdicts that responses show over a run. */
module Verdicts {
  import opened Model
  import opened PollWebhook
  import opened PollResponseWebhook
  import opened AdmissionLaws
  import PC = PollController
  import RC = PollResponseController
  import PL = PollStatusLaws
  import opened StoreTally
  import opened Cluster
  import opened WakeUps
  import opened Convergence
  import opened Timeline

  // ---------- How a step changes a response ----------

  /** The stored responses after a step, with the skipped writes taken out of the picture. */
  ghost function ResponsesAfter(c: State, s: Step): map<string, PollResponse>
    requires Enabled(c, s)
  {
    match s
    case CreateResponse(r, spec) => c.responses[r := PollResponse(spec, 1, None, EMPTY_RESPONSE_STATUS)]
    case UpdateResponse(r, spec) =>
      if spec == c.responses[r].spec then c.responses
      else c.responses[r := c.responses[r].(spec := spec, generation := c.responses[r].generation + 1)]
    case DeleteResponse(r) => c.responses - {r}
    case DoResponse(r) =>
      if r in c.responses
      then c.responses[r := ResponseTarget(c, c.responses[r])] else c.responses
    case _ => c.responses
  }

  lemma ResponsesAfterStep(c: State, s: Step)
    requires Inv(c) && Enabled(c, s)
    ensures Apply(c, s).responses == ResponsesAfter(c, s)
  {
    hide Inv, ReconcilePoll, ReconcileResponse, ResponseTarget, PollTarget, ResponsesTo, AdmittedPoll, KeepsTypes;
    hide AdmittedResponse;
    if s.DoPoll? {
      PollStepKeepsResponses(c, s.p);
    } else if s.DoResponse? {
      ResponseStepStores(c, s.r);
    }
  }

  lemma PollStepKeepsResponses(c: State, p: string)
    ensures ReconcilePoll(c, p).responses == c.responses
  {
    hide PC.StatusEqual, PollTarget, ResponsesTo;
  }

  lemma ResponseStepStores(c: State, r: string)
    requires Inv(c)
    ensures ReconcileResponse(c, r).responses ==
            if r in c.responses
            then c.responses[r := ResponseTarget(c, c.responses[r])] else c.responses
  {
    if r in c.responses {
      assert ResponseOk(c, r);
      ResponseOutcome(c, r);
    }
  }

  /** A stored response after a step is new, reconciled, or as it was but for an edit of the spec. */
  lemma ResponseChanges(c: State, s: Step, r: string)
    requires Inv(c) && Enabled(c, s) && r in Apply(c, s).responses
    ensures var after := Apply(c, s).responses[r];
            if r !in c.responses then after.status == EMPTY_RESPONSE_STATUS && after.owner == None
            else if s == DoResponse(r) then after == ResponseTarget(c, c.responses[r])
            else JudgedAs(after, c.responses[r])
  {
    hide Inv, Apply, ResponseTarget, AdmittedPoll, KeepsTypes, AdmittedResponse;
    ResponsesAfterStep(c, s);
  }

  /** Owner and status as before, and the same spec unless the generation is a later one. */
  ghost predicate JudgedAs(resp: PollResponse, before: PollResponse) {
    && resp.status == before.status && resp.owner == before.owner
    && resp.spec.pollRef == before.spec.pollRef
    && resp.generation >= before.generation
    && (resp.generation == before.generation ==> resp.spec == before.spec)
  }

  // ---------- Coherence of one status ----------

  /** Accepted, acceptedAt, Validated=True and Counted=True go together, and each condition exists once. */
  lemma StatusIsCoherent(cs: seq<State>, steps: seq<Step>, i: nat, r: string)
    requires IsRun(cs, steps) && Initial(cs[0]) && i < |cs| && r in cs[i].responses
    ensures var status := cs[i].responses[r].status;
            status != EMPTY_RESPONSE_STATUS ==>
              && (status.phase == ResponseAccepted || status.phase == ResponseRejected)
              && |status.conditions| == 2
              && status.conditions[0].ctype == Validated && status.conditions[1].ctype == Counted
              && (status.phase == ResponseAccepted <==> status.acceptedAt.Some?)
              && (status.phase == ResponseAccepted <==> status.conditions[0].status == ConditionTrue)
              && (status.phase == ResponseAccepted <==> status.conditions[1].status == ConditionTrue)
              && status.conditions[0].reason == status.conditions[1].reason
  {
    RunKeepsInv(cs, steps, i);
    assert ResponseOk(cs[i], r);
    hide IsRun, Inv, AdmittedResponse;
  }

  ghost predicate AcceptedThroughout(cs: seq<State>, i: nat, j: nat, r: string) {
    && i <= j < |cs|
    && forall k | i <= k <= j ::
         r in cs[k].responses && cs[k].responses[r].status.phase == ResponseAccepted
  }

  lemma AcceptedStep(c: State, s: Step, r: string)
    requires Inv(c) && Enabled(c, s) && r in c.responses && r in Apply(c, s).responses
    requires c.responses[r].status.phase == Apply(c, s).responses[r].status.phase == ResponseAccepted
    ensures Apply(c, s).responses[r].status.acceptedAt == c.responses[r].status.acceptedAt
  {
    assert ResponseOk(c, r);
    hide Inv, Apply, AdmittedResponse, RC.Verdict;
    ResponseChanges(c, s, r);
  }

  /** acceptedAt stays the same for as long as the response stays accepted; any rejection clears it. */
  lemma {:induction false} AcceptedAtIsStable(cs: seq<State>, steps: seq<Step>, i: nat, j: nat, r: string)
    requires IsRun(cs, steps) && Initial(cs[0]) && AcceptedThroughout(cs, i, j, r)
    ensures cs[j].responses[r].status.acceptedAt == cs[i].responses[r].status.acceptedAt
    decreases j
  {
    hide IsRun, Initial, Inv, Enabled, Apply;
    if i < j {
      RunLength(cs, steps);
      AcceptedAtIsStable(cs, steps, i, j - 1, r);
      RunKeepsInv(cs, steps, j - 1);
      StepOfRun(cs, steps, j - 1);
      AcceptedStep(cs[j - 1], steps[j - 1], r);
    }
  }

  // ---------- Generations ----------

  /** A generation starts at 1 and goes up by one with every change of the spec, and with nothing else. */
  lemma GenerationsCountEdits(c: State, s: Step)
    requires Inv(c) && Enabled(c, s)
    ensures forall p | p in Apply(c, s).polls ::
              var after := Apply(c, s).polls[p];
              after.generation ==
              if p !in c.polls then 1
              else c.polls[p].generation + if after.spec == c.polls[p].spec then 0 else 1
    ensures forall r | r in Apply(c, s).responses ::
              var after := Apply(c, s).responses[r];
              after.generation ==
              if r !in c.responses then 1
              else c.responses[r].generation + if after.spec == c.responses[r].spec then 0 else 1
  {
    hide Inv, Apply, PollsAfter, ResponsesAfter;
    PollsAfterStep(c, s);
    ResponsesAfterStep(c, s);
    PollGenerationsCount(c, s);
    ResponseGenerationsCount(c, s);
  }

  lemma PollGenerationsCount(c: State, s: Step)
    requires Enabled(c, s)
    ensures forall p | p in PollsAfter(c, s) ::
              var after := PollsAfter(c, s)[p];
              after.generation ==
              if p !in c.polls then 1
              else c.polls[p].generation + if after.spec == c.polls[p].spec then 0 else 1
  {
    hide PollTarget, AdmittedPoll, KeepsTypes, AdmittedResponse;
  }

  lemma ResponseGenerationsCount(c: State, s: Step)
    requires Enabled(c, s)
    ensures forall r | r in ResponsesAfter(c, s) ::
              var after := ResponsesAfter(c, s)[r];
              after.generation ==
              if r !in c.responses then 1
              else c.responses[r].generation + if after.spec == c.responses[r].spec then 0 else 1
  {
    if s.DoResponse? && s.r in c.responses {
      TargetKeepsSpec(c, c.responses[s.r]);
    }
    hide ResponseTarget, AdmittedPoll, KeepsTypes, AdmittedResponse;
  }

  // ---------- Which instants the timestamps are ----------

  /** Step `k` gave the response the phase it has had since. */
  ghost predicate Decided(cs: seq<State>, steps: seq<Step>, k: nat, j: nat, r: string)
    requires |cs| == |steps| + 1
  {
    && k < j < |cs| && steps[k] == DoResponse(r)
    && (forall m | k <= m <= j :: r in cs[m].responses)
    && cs[k].responses[r].status.phase != cs[j].responses[r].status.phase
    && forall m | k < m <= j :: cs[m].responses[r].status.phase == cs[j].responses[r].status.phase
  }

  lemma DatedStep(c: State, s: Step, r: string)
    requires Inv(c) && Enabled(c, s) && r in c.responses && r in Apply(c, s).responses
    ensures var before, after := c.responses[r].status, Apply(c, s).responses[r].status;
            if s == DoResponse(r) then
              && |after.conditions| == 2
              && (forall i | 0 <= i < 2 ::
                    after.conditions[i].lastTransitionTime ==
                    if before.phase == after.phase then RC.ConditionSince(before, i) else c.now)
              && (after.phase == ResponseAccepted ==>
                    after.acceptedAt == if before.phase == ResponseAccepted then before.acceptedAt else Some(c.now))
            else after == before
  {
    ResponseChanges(c, s, r);
    if s == DoResponse(r) {
      StoredIsOk(c, r);
      TargetIsDated(c, c.responses[r]);
    }
    hide Inv, Apply, Enabled, ResponseTarget, RC.Coherent, PollOk, AdmittedResponse, RC.ConditionSince;
  }

  lemma TargetIsDated(c: State, resp: PollResponse)
    requires RC.Coherent(resp.status)
    ensures var before, after := resp.status, ResponseTarget(c, resp).status;
            && |after.conditions| == 2
            && (forall i | 0 <= i < 2 ::
                  after.conditions[i].lastTransitionTime ==
                  if before.phase == after.phase then RC.ConditionSince(before, i) else c.now)
            && (after.phase == ResponseAccepted ==>
                  after.acceptedAt == if before.phase == ResponseAccepted then before.acceptedAt else Some(c.now))
  {
    var ref := resp.spec.pollRef;
    var verdict := if ref in c.polls then RC.Verdict(c.polls[ref].spec, resp.spec.answers, ClosedNow(c, ref))
                   else Some(NotFound(ref));
    RC.DesiredInFull(resp.status, verdict, if ref in c.polls then c.polls[ref].generation else 0,
                     resp.generation, c.now);
    hide RC.Coherent, RC.Verdict, RC.DesiredStatus, RC.ConditionSince, NotFound;
  }

  /** Both conditions carry the clock of the reconcile that decided on the phase, and so does acceptedAt. */
  lemma {:induction false} DecisionIsDated(cs: seq<State>, steps: seq<Step>, k: nat, j: nat, r: string)
    requires IsRun(cs, steps) && Initial(cs[0]) && Decided(cs, steps, k, j, r)
    ensures var status := cs[j].responses[r].status;
            && |status.conditions| == 2
            && status.conditions[0].lastTransitionTime == status.conditions[1].lastTransitionTime == cs[k].now
            && (status.phase == ResponseAccepted ==> status.acceptedAt == Some(cs[k].now))
    decreases j
  {
    hide IsRun, Initial, Inv, Enabled, Apply;
    RunLength(cs, steps);
    RunKeepsInv(cs, steps, j - 1);
    StepOfRun(cs, steps, j - 1);
    DatedStep(cs[j - 1], steps[j - 1], r);
    if k < j - 1 {
      DecisionIsDated(cs, steps, k, j - 1, r);
    }
  }

  /** Every phase that shows was decided on by such a reconcile. */
  lemma {:induction false} PhaseWasDecided(cs: seq<State>, steps: seq<Step>, j: nat, r: string)
    requires IsRun(cs, steps) && Initial(cs[0]) && j < |cs| && |cs| == |steps| + 1
    requires r in cs[j].responses && cs[j].responses[r].status.phase != NoResponsePhase
    ensures exists k: nat :: Decided(cs, steps, k, j, r)
  {
    hide IsRun, Inv, Apply, Enabled, ResponseTarget;
    assert j > 0;
    RunKeepsInv(cs, steps, j - 1);
    StepOfRun(cs, steps, j - 1);
    ResponseChanges(cs[j - 1], steps[j - 1], r);
    if cs[j - 1].responses[r].status.phase == cs[j].responses[r].status.phase {
      PhaseWasDecided(cs, steps, j - 1, r);
      var k: nat :| Decided(cs, steps, k, j - 1, r);
      assert Decided(cs, steps, k, j, r);
    } else {
      assert Decided(cs, steps, j - 1, j, r);
    }
  }

  // ---------- Cached verdicts ----------

  /** Step `k` is the last reconcile of `r` before state `i`, and `r` is stored all the time since. */
  ghost predicate LastReconcile(cs: seq<State>, steps: seq<Step>, k: nat, i: nat, r: string)
    requires |cs| == |steps| + 1
  {
    && k < i < |cs| && steps[k] == DoResponse(r)
    && (forall m | k < m < i :: steps[m] != DoResponse(r))
    && (forall m | k <= m <= i :: r in cs[m].responses)
  }

  /** The response was last judged on today's generations of itself and of its Poll. */
  ghost predicate Current(c: State, resp: PollResponse) {
    var ref := resp.spec.pollRef;
    && ref in c.polls && resp.owner == Some(c.polls[ref].uid)
    && resp.status.conditions != []
    && resp.status.observedPollGeneration == c.polls[ref].generation
    && resp.status.conditions[0].observedGeneration == resp.generation
  }

  lemma TargetKeepsSpec(c: State, resp: PollResponse)
    ensures ResponseTarget(c, resp).spec == resp.spec && ResponseTarget(c, resp).generation == resp.generation
  {
    hide RC.DesiredStatus, RC.Verdict;
  }

  /** What the response shows at `m` is what the reconcile at `k` aimed at. */
  lemma {:induction false} JudgedSince(cs: seq<State>, steps: seq<Step>, k: nat, m: nat, r: string)
    requires IsRun(cs, steps) && Initial(cs[0]) && LastReconcile(cs, steps, k, m, r)
    ensures JudgedAs(cs[m].responses[r], ResponseTarget(cs[k], cs[k].responses[r]))
    ensures cs[m].responses[r].spec.pollRef == cs[k].responses[r].spec.pollRef
    decreases m
  {
    hide IsRun, Initial, Inv, Apply, Enabled, ResponseTarget;
    RunLength(cs, steps);
    TargetKeepsSpec(cs[k], cs[k].responses[r]);
    RunKeepsInv(cs, steps, m - 1);
    StepOfRun(cs, steps, m - 1);
    ResponseChanges(cs[m - 1], steps[m - 1], r);
    if k < m - 1 {
      JudgedSince(cs, steps, k, m - 1, r);
    }
  }

  /** The Poll has the uid of `before` and its spec unless the generation is a later one. */
  ghost predicate SamePoll(poll: Poll, before: Poll) {
    && poll.uid == before.uid && poll.generation >= before.generation
    && (poll.generation == before.generation ==> poll.spec == before.spec)
  }

  /** The Poll of a name after a step: gone, new with a fresh uid, edited to a later generation, or as before. */
  lemma PollGenerations(c: State, s: Step, p: string)
    requires Inv(c) && Enabled(c, s)
    ensures p in Apply(c, s).polls ==>
              || Apply(c, s).polls[p].uid == c.nextUid
              || (p in c.polls && SamePoll(Apply(c, s).polls[p], c.polls[p]))
    ensures Apply(c, s).nextUid >= c.nextUid && Apply(c, s).now >= c.now
  {
    hide Inv, Apply, PollTarget, AdmittedPoll, KeepsTypes, AdmittedResponse;
    PollsAfterStep(c, s);
    UidsGrow(c, s);
  }

  lemma UidsGrow(c: State, s: Step)
    requires Enabled(c, s)
    ensures Apply(c, s).nextUid >= c.nextUid
  {
    hide AdmittedPoll, KeepsTypes, AdmittedResponse, ResponsesTo, PollOf, PollTarget, ResponseTarget;
    hide PC.StatusEqual, RC.StatusEqual;
  }

  /** The Poll of a name later in a run: created since, or the one it was. */
  lemma {:induction false} PollSince(cs: seq<State>, steps: seq<Step>, k: nat, m: nat, p: string)
    requires IsRun(cs, steps) && Initial(cs[0]) && k <= m < |cs|
    ensures cs[m].nextUid >= cs[k].nextUid && cs[m].now >= cs[k].now
    ensures p in cs[m].polls ==>
              || cs[m].polls[p].uid >= cs[k].nextUid
              || (p in cs[k].polls && SamePoll(cs[m].polls[p], cs[k].polls[p]))
    decreases m
  {
    hide IsRun, Initial, Inv, Apply, Enabled;
    if k < m {
      RunLength(cs, steps);
      PollSince(cs, steps, k, m - 1, p);
      RunKeepsInv(cs, steps, m - 1);
      StepOfRun(cs, steps, m - 1);
      PollGenerations(cs[m - 1], steps[m - 1], p);
    }
  }

  /** A response judged on today's generations was judged on today's specs. */
  lemma CurrentMeansSameSpecs(c: State, d: State, before: PollResponse, after: PollResponse)
    requires var ref := before.spec.pollRef;
             && RC.Coherent(before.status) && (ref in c.polls ==> PollOk(c, ref))
             && (ref in d.polls ==> PollOk(d, ref))
             && (ref in d.polls ==>
                   || d.polls[ref].uid >= c.nextUid
                   || (ref in c.polls && SamePoll(d.polls[ref], c.polls[ref])))
    requires JudgedAs(after, ResponseTarget(c, before)) && Current(d, after)
    ensures var ref := after.spec.pollRef;
            && ref == before.spec.pollRef && ref in c.polls && ref in d.polls
            && d.polls[ref].spec == c.polls[ref].spec && after.spec == before.spec
            && RC.Shows(after.status, RC.Verdict(d.polls[ref].spec, after.spec.answers, ClosedNow(c, ref)),
                        d.polls[ref].generation, after.generation)
  {
    ResponseTargetSettles(c, before);
    hide RC.Verdict, RC.DesiredStatus, RC.Coherent, RC.StatusEqual, AdmittedPoll, PL.Coherent, RC.ClosedAt;
  }

  /** Only a closed Poll gives the verdict PollClosed. */
  lemma OpenVerdictDiffers(spec: PollSpec, answers: seq<Answer>)
    requires spec.closesAt.Some?
    ensures RC.Verdict(spec, answers, true) != RC.Verdict(spec, answers, false)
  {
    NoProblemIsClosing(spec.questions, answers, 0);
  }

  lemma {:induction false} NoProblemIsClosing(questions: seq<Question>, answers: seq<Answer>, n: nat)
    requires n <= |answers|
    ensures var problem := RC.FirstProblem(questions, answers, n);
            problem.Some? ==> problem.value.reason != PollIsClosed
    decreases |answers| - n
  {
    hide RC.AnswerProblem;
    if n < |answers| {
      NoProblemIsClosing(questions, answers, n + 1);
      ProblemIsNotClosing(questions, answers[n]);
    }
  }

  /** No single answer can be to blame for the closing. */
  lemma ProblemIsNotClosing(questions: seq<Question>, a: Answer)
    ensures var problem := RC.ProblemAt(questions, a);
            problem.Some? ==> problem.value.reason != PollIsClosed
  {
    var byId := Index(QuestionIds(questions));
    if a.questionID in byId {
      var q := questions[byId[a.questionID]];
      if q.choice.Some? {
        SelectionIsNotClosing(q.id, q.choice.value.options, a.selectedOptions, 0);
      }
    }
  }

  lemma {:induction false} SelectionIsNotClosing(id: string, options: seq<string>, selected: seq<string>, n: nat)
    requires n <= |selected|
    ensures var problem := RC.SelectionProblem(id, options, selected, n);
            problem.Some? ==> problem.value.reason != PollIsClosed
    decreases |selected| - n
  {
    if n < |selected| {
      SelectionIsNotClosing(id, options, selected, n + 1);
    }
  }

  /**
   Cached verdict coherence: in every reachable state, a response judged on
   today's generations shows what validateResponse returned for today's specs when
   it was last reconciled. That is what it returns now if and only if the Poll has
   not closed in between.
   */
  lemma CachedVerdictIsCoherent(cs: seq<State>, steps: seq<Step>, k: nat, i: nat, r: string)
    requires IsRun(cs, steps) && Initial(cs[0]) && LastReconcile(cs, steps, k, i, r)
    requires Current(cs[i], cs[i].responses[r])
    ensures var c, resp := cs[i], cs[i].responses[r];
            var ref := resp.spec.pollRef;
            var poll := c.polls[ref];
            var recorded := RC.RecordedVerdict(resp.status);
            && RC.Shows(resp.status, recorded, poll.generation, resp.generation)
            && recorded == RC.Verdict(poll.spec, resp.spec.answers, ClosedNow(cs[k], ref))
            && (recorded == RC.Verdict(poll.spec, resp.spec.answers, ClosedNow(c, ref)) <==>
                ClosedNow(cs[k], ref) == ClosedNow(c, ref))
            && (ClosedNow(cs[k], ref) ==> ClosedNow(c, ref))
  {
    hide IsRun, Initial, Inv, RC.Verdict, RC.Shows, ResponseTarget, RC.Coherent, PollOk;
    var c, d := cs[k], cs[i];
    var before, after := c.responses[r], d.responses[r];
    var ref := after.spec.pollRef;
    JudgedSince(cs, steps, k, i, r);
    PollSince(cs, steps, k, i, before.spec.pollRef);
    RunKeepsInv(cs, steps, k);
    RunKeepsInv(cs, steps, i);
    StoredIsOk(c, r);
    StoredIsOk(d, r);
    CurrentMeansSameSpecs(c, d, before, after);
    RC.ShowsIsCoherent(after.status, RC.Verdict(d.polls[ref].spec, after.spec.answers, ClosedNow(c, ref)),
                       d.polls[ref].generation, after.generation);
    ClosingStays(c, d, ref);
    if ClosedNow(c, ref) != ClosedNow(d, ref) {
      OpenVerdictDiffers(d.polls[ref].spec, after.spec.answers);
    }
  }

  lemma ClosingStays(c: State, d: State, p: string)
    requires p in c.polls && p in d.polls && c.polls[p].spec == d.polls[p].spec && c.now <= d.now
    ensures ClosedNow(c, p) ==> ClosedNow(d, p)
    ensures ClosedNow(d, p) ==> d.polls[p].spec.closesAt.Some?
  {
  }

  lemma StoredIsOk(c: State, r: string)
    requires Inv(c) && r in c.responses
    ensures RC.Coherent(c.responses[r].status) && AdmittedResponse(c.responses[r].spec)
    ensures var ref := c.responses[r].spec.pollRef; ref in c.polls ==> PollOk(c, ref)
  {
    hide RC.Coherent, AdmittedResponse, PollOk;
    assert ResponseOk(c, r);
  }

  /** Whatever a response shows was written by a last reconcile. */
  lemma {:induction false} ShownMeansReconciled(cs: seq<State>, steps: seq<Step>, i: nat, r: string)
    requires IsRun(cs, steps) && Initial(cs[0]) && i < |cs| && |cs| == |steps| + 1
    requires r in cs[i].responses && cs[i].responses[r].status != EMPTY_RESPONSE_STATUS
    ensures exists k: nat :: LastReconcile(cs, steps, k, i, r)
  {
    hide IsRun, Inv, Apply, Enabled, ResponseTarget;
    assert i > 0;
    RunKeepsInv(cs, steps, i - 1);
    StepOfRun(cs, steps, i - 1);
    ResponseChanges(cs[i - 1], steps[i - 1], r);
    if steps[i - 1] == DoResponse(r) {
      assert LastReconcile(cs, steps, i - 1, i, r);
    } else {
      ShownMeansReconciled(cs, steps, i - 1, r);
      var k: nat :| LastReconcile(cs, steps, k, i - 1, r);
      assert LastReconcile(cs, steps, k, i, r);
    }
  }

  /**
   Whenever it was last reconciled: such a response shows what validateResponse
   returns now, or, once the Poll has closed, what it returned while it was open.
   */
  lemma VerdictIsOfNowOrBeforeClosing(cs: seq<State>, steps: seq<Step>, i: nat, r: string)
    requires IsRun(cs, steps) && Initial(cs[0]) && i < |cs| && r in cs[i].responses
    requires Current(cs[i], cs[i].responses[r])
    ensures var c, resp := cs[i], cs[i].responses[r];
            var ref := resp.spec.pollRef;
            var recorded := RC.RecordedVerdict(resp.status);
            var open := RC.Verdict(c.polls[ref].spec, resp.spec.answers, false);
            var now := RC.Verdict(c.polls[ref].spec, resp.spec.answers, ClosedNow(c, ref));
            if ClosedNow(c, ref) then recorded == now || recorded == open else recorded == now
  {
    hide IsRun, Initial, RC.Verdict, Inv;
    RunLength(cs, steps);
    ShownMeansReconciled(cs, steps, i, r);
    var k: nat :| LastReconcile(cs, steps, k, i, r);
    CachedVerdictIsCoherent(cs, steps, k, i, r);
  }

  // ---------- Reasons that admission rules out ----------

  ghost predicate NoBadVerdict(status: ResponseStatus) {
    status.conditions != [] && RC.RecordedVerdict(status).Some? ==>
      !NeedsBadObject(RC.RecordedVerdict(status).value)
  }

  lemma ReconciledVerdict(c: State, r: string)
    requires Inv(c) && r in c.responses
    ensures NoBadVerdict(ResponseTarget(c, c.responses[r]).status)
  {
    var resp := c.responses[r];
    StoredIsOk(c, r);
    var ref := resp.spec.pollRef;
    if ref in c.polls {
      AdmissionMakesBranchesUnreachable(c.polls[ref].spec, resp.spec, ClosedNow(c, ref));
    }
    hide Inv, AdmittedPoll, AdmittedResponse, RC.Verdict, RC.Coherent, RC.ClosedAt, RC.DesiredStatus;
    ResponseTargetSettles(c, resp);
  }

  lemma {:induction false} RunKeepsVerdicts(cs: seq<State>, steps: seq<Step>, i: nat, r: string)
    requires IsRun(cs, steps) && Initial(cs[0]) && i < |cs| && r in cs[i].responses
    ensures NoBadVerdict(cs[i].responses[r].status)
  {
    hide Inv, IsRun, Apply, Enabled, ResponseTarget, NeedsBadObject, RC.RecordedVerdict;
    RunLength(cs, steps);
    if i > 0 {
      RunKeepsInv(cs, steps, i - 1);
      StepOfRun(cs, steps, i - 1);
      ResponseChanges(cs[i - 1], steps[i - 1], r);
      if r in cs[i - 1].responses {
        RunKeepsVerdicts(cs, steps, i - 1, r);
        ReconciledVerdict(cs[i - 1], r);
      }
    }
  }

  /** No reachable status ever blames the question configuration, an empty answer or a repeated selection. */
  lemma NoReachableStatusBlamesAdmission(cs: seq<State>, steps: seq<Step>, i: nat, r: string)
    requires IsRun(cs, steps) && Initial(cs[0]) && i < |cs| && r in cs[i].responses
    ensures var status := cs[i].responses[r].status;
            status.conditions != [] ==>
              && status.conditions[0].reason !in {InvalidQuestion, EmptyAnswer}
              && !status.conditions[0].message.SelectedTwice?
  {
    RunKeepsVerdicts(cs, steps, i, r);
    RunKeepsInv(cs, steps, i);
    StoredIsOk(cs[i], r);
    hide IsRun, Initial, Inv, AdmittedResponse;
  }

  // ---------- A Poll created again ----------

  /**
   A response outlives its Poll: when a Poll of that name is created again, the
   response is queued, and its reconcile makes the new Poll its owner and records
   the verdict of the new spec.
   */
  lemma ResponseFollowsRecreatedPoll(c: State, p: string, spec: PollSpec, r: string)
    requires Inv(c) && Enabled(c, CreatePoll(p, spec))
    requires r in c.responses && c.responses[r].spec.pollRef == p
    ensures var d := Apply(c, CreatePoll(p, spec));
            && Enabled(d, DoResponse(r))
            && var e := Apply(d, DoResponse(r));
               && p in e.polls && r in e.responses
               && e.responses[r].owner == Some(e.polls[p].uid) != c.responses[r].owner
               && RC.Shows(e.responses[r].status,
                           RC.Verdict(spec, c.responses[r].spec.answers, RC.ClosedAt(spec, c.now)),
                           1, c.responses[r].generation)
  {
    hide Inv, AdmittedPoll, AdmittedResponse, RC.Verdict, RC.ClosedAt, RC.Shows, ReconcileResponse, ResponsesTo;
    hide ResponseTarget, RC.Coherent, ResponseOk;
    var d := Apply(c, CreatePoll(p, spec));
    StepKeepsInv(c, CreatePoll(p, spec));
    CreatedPollWakes(c, p, spec, r);
    OwnerIsOlder(c, r);
    OwnerIsOlder(d, r);
    TargetKeepsSpec(d, d.responses[r]);
    ResponseOutcome(d, r);
  }

  lemma CreatedPollWakes(c: State, p: string, spec: PollSpec, r: string)
    requires Enabled(c, CreatePoll(p, spec)) && r in c.responses && c.responses[r].spec.pollRef == p
    ensures var d := Apply(c, CreatePoll(p, spec));
            && r in d.responseQueue && d.responses == c.responses && d.now == c.now
            && p in d.polls && d.polls[p] == Poll(c.nextUid, spec, 1, EMPTY_POLL_STATUS)
  {
    hide AdmittedPoll;
  }

  lemma OwnerIsOlder(c: State, r: string)
    requires Inv(c) && r in c.responses
    ensures ResponseOk(c, r) && c.responses[r].owner != Some(c.nextUid)
  {
    hide AdmittedResponse, RC.Coherent;
  }

}
