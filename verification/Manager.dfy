/**
 The running program: the API server's store with its admission webhooks, and
 the two reconcilers written the way the source writes them. Every method is
 proved to take exactly the step of the state machine that bears its name.
 */
module Manager {
  import opened Model
  import opened PollWebhook
  import opened PollResponseWebhook
  import PollHook = PollWebhook
  import ResponseHook = PollResponseWebhook
  import PC = PollController
  import RC = PollResponseController
  import Tally
  import opened StoreTally
  import opened WakeUps
  import C = Cluster

  class Server {
    var now: Time
    var polls: map<string, Poll>
    var responses: map<string, PollResponse>
    var pollQueue: set<string>
    var responseQueue: set<string>
    var timers: map<string, Time>
    var nextUid: nat

    ghost function View(): C.State
      reads this
    {
      C.State(now, polls, responses, pollQueue, responseQueue, timers, nextUid)
    }

    constructor (clock: Time)
      ensures C.Initial(View())
    {
      now, polls, responses, pollQueue, responseQueue, timers, nextUid := clock, map[], map[], {}, {}, map[], 0;
    }

    // ---------- Lists and watch events ----------

    /** The cache lists the responses in no particular order. */
    method List() returns (names: seq<string>)
      ensures Lists(names, responses)
    {
      names := [];
      var rest := responses.Keys;
      while rest != {}
        invariant rest <= responses.Keys && Distinct(names)
        invariant forall r :: r in names <==> r in responses && r !in rest
        decreases |rest|
      {
        var r :| r in rest;
        rest := rest - {r};
        names := names + [r];
      }
    }

    method MapPollToResponses(p: string) returns (requests: seq<string>)
      ensures Elements(requests) == C.ResponsesTo(responses, p)
      ensures forall r :: r in requests <==> r in responses && responses[r].spec.pollRef == p
    {
      var items := List();
      requests := [];
      for i := 0 to |items|
        invariant forall r :: r in requests <==> r in items[..i] && responses[r].spec.pollRef == p
      {
        assert items[..i + 1] == items[..i] + [items[i]];
        if responses[items[i]].spec.pollRef != p {
          continue;
        }
        requests := requests + [items[i]];
      }
      assert items[..|items|] == items;
    }

    method RaisePollEvent(p: string)
      modifies this`pollQueue, this`responseQueue
      ensures View() == C.PollEvent(old(View()), p)
    {
      var requests := MapPollToResponses(p);
      pollQueue := pollQueue + {p};
      responseQueue := responseQueue + Elements(requests);
    }

    method RaiseResponseEvent(r: string, ref: string)
      modifies this`pollQueue, this`responseQueue
      ensures View() == C.ResponseEvent(old(View()), r, ref)
    {
      responseQueue := responseQueue + {r};
      if ref != "" {
        pollQueue := pollQueue + {ref};
      }
    }

    // ---------- Writes by users, behind the webhooks ----------

    method CreatePoll(p: string, spec: PollSpec) returns (admitted: bool)
      requires p !in polls && p != "" && UniqueIds(spec)
      modifies this
      ensures admitted <==> C.Enabled(old(View()), C.CreatePoll(p, spec))
      ensures View() == if admitted then C.Apply(old(View()), C.CreatePoll(p, spec)) else old(View())
    {
      hide UniqueIds, WellFormedPoll, C.ResponsesTo;
      var errs := PollHook.ValidateCreate(spec);
      admitted := |errs| == 0;
      if admitted {
        polls := polls[p := Poll(nextUid, spec, 1, EMPTY_POLL_STATUS)];
        nextUid := nextUid + 1;
        RaisePollEvent(p);
      }
    }

    method UpdatePoll(p: string, spec: PollSpec) returns (admitted: bool)
      requires Inv(View()) && p in polls && UniqueIds(spec)
      modifies this
      ensures admitted <==> C.Enabled(old(View()), C.UpdatePoll(p, spec))
      ensures View() == if admitted then C.Apply(old(View()), C.UpdatePoll(p, spec)) else old(View())
    {
      StoreIsAdmitted(View());
      hide Inv, UniqueIds, WellFormedPoll, KeepsTypes, C.ResponsesTo, AdmittedStore;
      var errs := PollHook.ValidateUpdate(polls[p].spec, spec);
      admitted := |errs| == 0;
      if admitted && spec != polls[p].spec {
        polls := polls[p := polls[p].(spec := spec, generation := polls[p].generation + 1)];
        RaisePollEvent(p);
      }
    }

    method CreateResponse(r: string, spec: ResponseSpec) returns (admitted: bool)
      requires r !in responses && SchemaResponse(spec)
      modifies this
      ensures admitted <==> C.Enabled(old(View()), C.CreateResponse(r, spec))
      ensures View() == if admitted then C.Apply(old(View()), C.CreateResponse(r, spec)) else old(View())
    {
      hide SchemaResponse, WellFormedResponse;
      var errs := ResponseHook.ValidateCreate(spec);
      admitted := |errs| == 0;
      if admitted {
        responses := responses[r := PollResponse(spec, 1, None, EMPTY_RESPONSE_STATUS)];
        RaiseResponseEvent(r, spec.pollRef);
      }
    }

    method UpdateResponse(r: string, spec: ResponseSpec) returns (admitted: bool)
      requires r in responses && SchemaResponse(spec)
      modifies this
      ensures admitted <==> C.Enabled(old(View()), C.UpdateResponse(r, spec))
      ensures View() == if admitted then C.Apply(old(View()), C.UpdateResponse(r, spec)) else old(View())
    {
      hide SchemaResponse, WellFormedResponse;
      var errs := ResponseHook.ValidateUpdate(responses[r].spec, spec);
      admitted := |errs| == 0;
      if admitted && spec != responses[r].spec {
        responses := responses[r := responses[r].(spec := spec, generation := responses[r].generation + 1)];
        RaiseResponseEvent(r, spec.pollRef);
      }
    }

    // ---------- Reconciling a Poll ----------

    /** The status that the reconciler computes from fresh reads. */
    method DesiredPollStatus(p: string) returns (desired: PollStatus)
      requires p in polls && AdmittedPoll(polls[p].spec) && AdmittedStore(responses)
      ensures desired == C.PollTarget(View(), p)
    {
      var poll := polls[p];
      var status := new PC.StatusCopy.DeepCopy(poll.status);
      var phase := status.ComputePhase(poll.spec, now);
      status.phase := phase;
      var names := List();
      var results, total := Tally.AggregateResults(p, poll.spec, Values(responses, names));
      AggregationIsStoreTally(responses, names, p, poll.spec);
      status.results := results;
      status.totalResponses := total;
      status.SetReadyCondition(phase, poll.generation, now);
      desired := status.Value();
      hide AdmittedPoll, AdmittedStore, Lists, StoreRows, StoreTotal;
    }

    /** Patches the status only when the comparison sees a change. */
    method PersistPollStatus(p: string, desired: PollStatus)
      requires p in polls
      modifies this`polls, this`pollQueue, this`responseQueue
      ensures View() == C.PersistStatus(old(View()), p, desired)
    {
      hide PC.StatusEqual, C.ResponsesTo;
      var same := PC.PollStatusEqual(polls[p].status, desired);
      if !same {
        polls := polls[p := polls[p].(status := desired)];
        RaisePollEvent(p);
      }
    }

    method ReconcilePoll(p: string)
      requires Inv(View()) && p in pollQueue
      modifies this
      ensures View() == C.ReconcilePoll(old(View()), p)
      ensures Inv(View())
    {
      hide Inv, AdmittedPoll, AdmittedStore, C.PollTarget, C.PersistStatus;
      ReconcilePollKeepsInv(View(), p);
      StoreIsAdmitted(View());
      pollQueue := pollQueue - {p};
      if p !in polls {
        return;
      }
      var spec := polls[p].spec;
      var desired := DesiredPollStatus(p);
      TargetIgnoresQueue(old(View()), View(), p);
      PersistPollStatus(p, desired);
      if desired.phase == PollOpen && spec.closesAt != None {
        var wait := spec.closesAt.value - now;
        if wait > 0 {
          timers := C.Arm(timers, p, now + wait);
        }
      }
    }

    // ---------- Reconciling a response ----------

    /** What is stored for the response once its owner is set and its verdict recorded. */
    method DesiredResponseStatus(resp: PollResponse) returns (desired: ResponseStatus)
      ensures desired == C.ResponseTarget(View(), resp).status
    {
      var status := new RC.StatusCopy.DeepCopy(resp.status);
      var ref := resp.spec.pollRef;
      if ref !in polls {
        status.Reject(0, resp.generation, C.NotFound(ref), now);
      } else {
        var poll := polls[ref];
        var verr := RC.ValidateResponse(poll.spec, resp.spec, now);
        if verr.Some? {
          status.Reject(poll.generation, resp.generation, verr.value, now);
        } else {
          status.Accept(poll.generation, resp.generation, now);
        }
      }
      desired := status.Value();
      hide RC.Verdict, RC.DesiredStatus;
    }

    /** Sets the Poll as owner unless it is, in place of an earlier Poll of the same name. */
    method EnsureOwnerReference(r: string, uid: nat)
      requires r in responses
      modifies this`responses, this`pollQueue, this`responseQueue
      ensures var resp := old(responses[r]);
              View() == if resp.owner == Some(uid) then old(View())
                        else C.StoreResponse(old(View()), r, resp.(owner := Some(uid)))
    {
      var resp := responses[r];
      if resp.owner == Some(uid) {
        return;
      }
      responses := responses[r := resp.(owner := Some(uid))];
      RaiseResponseEvent(r, resp.spec.pollRef);
    }

    method PersistResponseStatus(r: string, desired: ResponseStatus)
      requires r in responses
      modifies this`responses, this`pollQueue, this`responseQueue
      ensures View() == if RC.StatusEqual(old(responses[r]).status, desired) then old(View())
                        else C.StoreResponse(old(View()), r, old(responses[r]).(status := desired))
    {
      hide RC.StatusEqual;
      var resp := responses[r];
      var same := RC.ResponseStatusEqual(resp.status, desired);
      if !same {
        responses := responses[r := resp.(status := desired)];
        RaiseResponseEvent(r, resp.spec.pollRef);
      }
    }

    method ReconcileResponse(r: string)
      requires Inv(View()) && r in responseQueue
      modifies this
      ensures View() == C.ReconcileResponse(old(View()), r)
      ensures Inv(View())
    {
      hide Inv, RC.StatusEqual, RC.DesiredStatus, RC.Verdict;
      ReconcileResponseKeepsInv(View(), r);
      ghost var c := View();
      responseQueue := responseQueue - {r};
      if r !in responses {
        return;
      }
      var resp := responses[r];
      var ref := resp.spec.pollRef;
      if ref in polls {
        EnsureOwnerReference(r, polls[ref].uid);
      }
      var desired := DesiredResponseStatus(resp);
      PersistResponseStatus(r, desired);
      TwoWrites(c, r);
    }
  }

  /** Setting the owner and then the status amounts to one write of both. */
  lemma TwoWrites(c: C.State, r: string)
    requires r in c.responses
    ensures var c1 := c.(responseQueue := c.responseQueue - {r});
            var resp, target := c.responses[r], C.ResponseTarget(c, c.responses[r]);
            var owned := resp.(owner := target.owner);
            var c2 := if target.owner == resp.owner then c1 else C.StoreResponse(c1, r, owned);
            C.ReconcileResponse(c, r) ==
            if RC.StatusEqual(resp.status, target.status) then c2
            else C.StoreResponse(c2, r, owned.(status := target.status))
  {
    hide RC.StatusEqual, RC.DesiredStatus, RC.Verdict, RC.ClosedAt;
    var c1 := c.(responseQueue := c.responseQueue - {r});
    var resp, target := c.responses[r], C.ResponseTarget(c, c.responses[r]);
    var owned := resp.(owner := target.owner);
    assert owned.(status := target.status) == target;
    assert c.responses[r := owned][r := target] == c.responses[r := target];
    var ref := resp.spec.pollRef;
    assert c1.responseQueue + {r} + {r} == c1.responseQueue + {r};
    assert c1.pollQueue + C.PollOf(ref) + C.PollOf(ref) == c1.pollQueue + C.PollOf(ref);
  }

  lemma StoreIsAdmitted(c: C.State)
    requires Inv(c)
    ensures AdmittedStore(c.responses)
    ensures forall p | p in c.polls :: AdmittedPoll(c.polls[p].spec)
  {
    forall r | r in c.responses ensures AdmittedResponse(c.responses[r].spec) {
      assert ResponseOk(c, r);
    }
    forall p | p in c.polls ensures AdmittedPoll(c.polls[p].spec) {
      assert PollOk(c, p);
    }
  }

  lemma TargetIgnoresQueue(c: C.State, d: C.State, p: string)
    requires p in c.polls && c.polls == d.polls && c.responses == d.responses && c.now == d.now
    ensures C.PollTarget(c, p) == C.PollTarget(d, p)
  {
  }
}
