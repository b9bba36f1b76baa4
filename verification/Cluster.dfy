/**
 The two reconcilers as a state machine: the stored objects, the work queues
 and timers of the controllers, the clock, and every step that can happen.

 A reconcile is one step that reads fresh objects. Each effective write raises
 the watch events wired in SetupWithManager of both controllers. All objects
 live in one namespace.
 */
module Cluster {
  import opened Model
  import opened PollWebhook
  import opened PollResponseWebhook
  import PC = PollController
  import RC = PollResponseController
  import opened StoreTally

  datatype State = State(
    now: Time,
    polls: map<string, Poll>,
    responses: map<string, PollResponse>,
    pollQueue: set<string>,
    responseQueue: set<string>,
    timers: map<string, Time>,
    nextUid: nat)

  // ---------- Watch events ----------

  /** mapPollToResponses: the responses that refer to the Poll. */
  ghost function ResponsesTo(responses: Store, p: string): set<string> {
    set r | r in responses && responses[r].spec.pollRef == p
  }

  /** mapResponseToPoll: the Poll that the response refers to. */
  function PollOf(ref: string): set<string> {
    if ref == "" then {} else {ref}
  }

  /** A Poll was created, changed or deleted. */
  ghost function PollEvent(c: State, p: string): State {
    c.(pollQueue := c.pollQueue + {p}, responseQueue := c.responseQueue + ResponsesTo(c.responses, p))
  }

  /** A response to `ref` was created, changed or deleted. */
  ghost function ResponseEvent(c: State, r: string, ref: string): State {
    c.(responseQueue := c.responseQueue + {r}, pollQueue := c.pollQueue + PollOf(ref))
  }

  // ---------- Reconciling a Poll ----------

  /** The status a reconcile of `p` aims at. */
  ghost function PollTarget(c: State, p: string): PollStatus
    requires p in c.polls
  {
    var poll := c.polls[p];
    PC.DesiredStatus(poll.status, RC.ClosedAt(poll.spec, c.now), poll.generation,
                     StoreRows(c.responses, p, poll.spec.questions), StoreTotal(c.responses, p), c.now)
  }

  /** RequeueAfter: of two pending times for the same key the earlier one stays. */
  function Arm(timers: map<string, Time>, p: string, t: Time): map<string, Time> {
    timers[p := if p in timers && timers[p] < t then timers[p] else t]
  }

  /** Writes the status unless the comparison says that it did not change. */
  ghost function PersistStatus(c: State, p: string, target: PollStatus): State
    requires p in c.polls
  {
    if PC.StatusEqual(c.polls[p].status, target) then c
    else PollEvent(c.(polls := c.polls[p := c.polls[p].(status := target)]), p)
  }

  /** An open Poll comes back when it closes. */
  ghost function RequeueAtClose(c: State, p: string, spec: PollSpec, phase: PollPhase): State {
    if phase == PollOpen && spec.closesAt.Some? && c.now < spec.closesAt.value
    then c.(timers := Arm(c.timers, p, spec.closesAt.value))
    else c
  }

  ghost function ReconcilePoll(c: State, p: string): State {
    var c1 := c.(pollQueue := c.pollQueue - {p});
    if p !in c.polls then c1
    else
      var target := PollTarget(c, p);
      RequeueAtClose(PersistStatus(c1, p, target), p, c.polls[p].spec, target.phase)
  }

  // ---------- Reconciling a response ----------

  function NotFound(ref: string): ValidationError {
    ValidationError(PollNotFound, NoSuchPoll(ref))
  }

  /**
   Owner and status a reconcile of the response aims at. A reference to an earlier
   Poll of the same name is replaced: controller references are compared by name.
   */
  ghost function ResponseTarget(c: State, resp: PollResponse): PollResponse {
    var ref := resp.spec.pollRef;
    if ref !in c.polls then
      resp.(status := RC.DesiredStatus(resp.status, Some(NotFound(ref)), 0, resp.generation, c.now))
    else
      var poll := c.polls[ref];
      var verdict := RC.Verdict(poll.spec, resp.spec.answers, RC.ClosedAt(poll.spec, c.now));
      resp.(owner := Some(poll.uid),
            status := RC.DesiredStatus(resp.status, verdict, poll.generation, resp.generation, c.now))
  }

  ghost function ReconcileResponse(c: State, r: string): State {
    var c1 := c.(responseQueue := c.responseQueue - {r});
    if r !in c.responses then c1
    else
      var resp := c.responses[r];
      var target := ResponseTarget(c, resp);
      if RC.StatusEqual(resp.status, target.status) then
        if target.owner == resp.owner then c1
        else StoreResponse(c1, r, resp.(owner := target.owner))
      else StoreResponse(c1, r, target)
  }

  ghost function StoreResponse(c: State, r: string, resp: PollResponse): State {
    ResponseEvent(c.(responses := c.responses[r := resp]), r, resp.spec.pollRef)
  }

  // ---------- Steps ----------

  datatype Step =
    | CreatePoll(p: string, spec: PollSpec)
    | UpdatePoll(p: string, spec: PollSpec)
    | DeletePoll(p: string)
    | CreateResponse(r: string, rspec: ResponseSpec)
    | UpdateResponse(r: string, rspec: ResponseSpec)
    | DeleteResponse(r: string)
    | Tick(elapsed: nat)
    | FireTimer(p: string)
    | Resync(ps: set<string>, rs: set<string>)
    | Restart
    | DoPoll(p: string)
    | DoResponse(r: string)

  /** What users may do is what schema and admission let through; controllers take any key from their queue. */
  ghost predicate Enabled(c: State, s: Step) {
    match s
    case CreatePoll(p, spec) => p !in c.polls && p != "" && AdmittedPoll(spec)
    case UpdatePoll(p, spec) => p in c.polls && AdmittedPoll(spec) && KeepsTypes(c.polls[p].spec, spec)
    case DeletePoll(p) => p in c.polls
    case CreateResponse(r, spec) => r !in c.responses && AdmittedResponse(spec)
    case UpdateResponse(r, spec) =>
      r in c.responses && AdmittedResponse(spec) && spec.pollRef == c.responses[r].spec.pollRef
    case DeleteResponse(r) => r in c.responses
    case Tick(_) => true
    case FireTimer(p) => p in c.timers && c.timers[p] <= c.now
    case Resync(_, _) => true
    case Restart => true
    case DoPoll(p) => p in c.pollQueue
    case DoResponse(r) => r in c.responseQueue
  }

  ghost function Apply(c: State, s: Step): State
    requires Enabled(c, s)
  {
    match s
    case CreatePoll(p, spec) =>
      PollEvent(c.(polls := c.polls[p := Poll(c.nextUid, spec, 1, EMPTY_POLL_STATUS)], nextUid := c.nextUid + 1), p)
    case UpdatePoll(p, spec) =>
      if spec == c.polls[p].spec then c
      else PollEvent(c.(polls := c.polls[p := c.polls[p].(spec := spec, generation := c.polls[p].generation + 1)]), p)
    case DeletePoll(p) => PollEvent(c.(polls := c.polls - {p}), p)
    case CreateResponse(r, spec) => StoreResponse(c, r, PollResponse(spec, 1, None, EMPTY_RESPONSE_STATUS))
    case UpdateResponse(r, spec) =>
      if spec == c.responses[r].spec then c
      else StoreResponse(c, r, c.responses[r].(spec := spec, generation := c.responses[r].generation + 1))
    case DeleteResponse(r) =>
      ResponseEvent(c.(responses := c.responses - {r}), r, c.responses[r].spec.pollRef)
    case Tick(d) => c.(now := c.now + d)
    case FireTimer(p) => c.(timers := c.timers - {p}, pollQueue := c.pollQueue + {p})
    case Resync(ps, rs) => c.(pollQueue := c.pollQueue + ps, responseQueue := c.responseQueue + rs)
    case Restart => c.(pollQueue := c.polls.Keys, responseQueue := c.responses.Keys, timers := map[])
    case DoPoll(p) => ReconcilePoll(c, p)
    case DoResponse(r) => ReconcileResponse(c, r)
  }

  /** No objects yet; the clock may show anything. */
  ghost predicate Initial(c: State) {
    c.polls == map[] && c.responses == map[] && c.pollQueue == {} && c.responseQueue == {} && c.timers == map[]
  }

  /** `cs` are the states of a run that takes `steps`. */
  ghost predicate IsRun(cs: seq<State>, steps: seq<Step>) {
    && |cs| == |steps| + 1
    && forall i | 0 <= i < |steps| :: Enabled(cs[i], steps[i]) && cs[i + 1] == Apply(cs[i], steps[i])
  }
}
