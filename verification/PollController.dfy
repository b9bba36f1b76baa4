/**
 The status of a Poll: lifecycle, Ready condition and the comparison that
 decides whether to write it; internal/controller/poll_controller.go.
 */
module PollController {
  import opened Model
  import opened Conditions
  import opened PollWebhook
  import opened PollResponseController
  import opened Tally

  // ---------- Lifecycle ----------

  /** The timestamps that `computePhase` leaves behind, and the phase it returns. */
  function Lifecycle(status: PollStatus, closed: bool, now: Time): PollStatus {
    if closed then
      var closedAt := if status.closedAt == None then Some(now) else status.closedAt;
      status.(phase := PollClosed, closedAt := closedAt,
              openedAt := if status.openedAt == None then closedAt else status.openedAt)
    else
      status.(phase := PollOpen, closedAt := None,
              openedAt := if status.openedAt == None then Some(now) else status.openedAt)
  }

  function ReadyCondition(phase: PollPhase, generation: nat, now: Time): Condition {
    match phase
    case PollOpen => Condition(Ready, ConditionTrue, ReasonOpen, AcceptingResponses, generation, now)
    case PollClosed => Condition(Ready, ConditionFalse, ReasonClosed, NoLongerAccepting, generation, now)
    case _ => Condition(Ready, ConditionUnknown, ReasonPending, NotYetOpened, generation, now)
  }

  /** The status that `Reconcile` aims at, given the stored one and the tally. */
  function DesiredStatus(stored: PollStatus, closed: bool, generation: nat,
                         rows: seq<QuestionResult>, total: Int32, now: Time): PollStatus
  {
    var s := Lifecycle(stored, closed, now);
    s.(results := rows, totalResponses := total,
       conditions := SetStatusCondition(stored.conditions, ReadyCondition(s.phase, generation, now)))
  }

  /** The working copy of a status that the reconciler fills in field by field. */
  class StatusCopy {
    var conditions: seq<Condition>
    var phase: PollPhase
    var openedAt: Option<Time>
    var closedAt: Option<Time>
    var results: seq<QuestionResult>
    var totalResponses: Int32

    function Value(): PollStatus
      reads this
    {
      PollStatus(conditions, phase, openedAt, closedAt, results, totalResponses)
    }

    constructor DeepCopy(status: PollStatus)
      ensures Value() == status
    {
      conditions, phase, openedAt := status.conditions, status.phase, status.openedAt;
      closedAt, results, totalResponses := status.closedAt, status.results, status.totalResponses;
    }

    method ComputePhase(spec: PollSpec, now: Time) returns (computed: PollPhase)
      modifies this`openedAt, this`closedAt
      ensures Value().(phase := computed) == Lifecycle(old(Value()), ClosedAt(spec, now), now)
      ensures var open := spec.closesAt.None? || now < spec.closesAt.value;
              && computed == (if open then PollOpen else PollClosed)
              && closedAt == (if open then None else if old(closedAt).Some? then old(closedAt) else Some(now))
              && openedAt == (if old(openedAt).Some? then old(openedAt) else if open then Some(now) else closedAt)
    {
      if spec.closesAt.Some? && !(now < spec.closesAt.value) {
        if closedAt == None {
          closedAt := Some(now);
        }
        if openedAt == None {
          openedAt := closedAt;
        }
        return PollClosed;
      }
      if openedAt == None {
        openedAt := Some(now);
      }
      closedAt := None;
      return PollOpen;
    }

    method SetReadyCondition(newPhase: PollPhase, generation: nat, now: Time)
      modifies this`conditions
      ensures conditions == SetStatusCondition(old(conditions), ReadyCondition(newPhase, generation, now))
      ensures var i := Find(conditions, Ready);
              && i < |conditions| && conditions[i].observedGeneration == generation
              && var ready := (conditions[i].status, conditions[i].reason, conditions[i].message);
                 match newPhase
                 case PollOpen => ready == (ConditionTrue, ReasonOpen, AcceptingResponses)
                 case PollClosed => ready == (ConditionFalse, ReasonClosed, NoLongerAccepting)
                 case _ => ready == (ConditionUnknown, ReasonPending, NotYetOpened)
    {
      var cond := Condition(Ready, ConditionUnknown, ReasonPending, NotYetOpened, generation, now);
      if newPhase == PollOpen {
        cond := Condition(Ready, ConditionTrue, ReasonOpen, AcceptingResponses, generation, now);
      } else if newPhase == PollClosed {
        cond := Condition(Ready, ConditionFalse, ReasonClosed, NoLongerAccepting, generation, now);
      }
      SetThenFind(conditions, cond);
      conditions := SetStatusCondition(conditions, cond);
    }
  }

  // ---------- Comparing statuses ----------

  /** The votes the comparison reads for option `o`: a missing option reads as 0. */
  function VotesRead(options: seq<OptionResult>, o: string): Int32 {
    var index := Index(OptionNames(options));
    if o in index then options[index[o]].votes else 0
  }

  predicate SameVotes(a: seq<OptionResult>, b: seq<OptionResult>) {
    |a| == |b| && forall j | 0 <= j < |b| :: VotesRead(a, b[j].option) == b[j].votes
  }

  /** The row of `a` with `row`'s question exists and compares equal to `row`. */
  predicate HasRow(a: seq<QuestionResult>, row: QuestionResult) {
    var index := Index(ResultIds(a));
    && row.questionID in index
    && var ar := a[index[row.questionID]]; ar.responses == row.responses && SameVotes(ar.options, row.options)
  }

  predicate RowsEqual(a: seq<QuestionResult>, b: seq<QuestionResult>) {
    |a| == |b| && forall i | 0 <= i < |b| :: HasRow(a, b[i])
  }

  predicate StatusEqual(a: PollStatus, b: PollStatus) {
    && a.phase == b.phase
    && a.totalResponses == b.totalResponses
    && a.openedAt == b.openedAt
    && a.closedAt == b.closedAt
    && RowsEqual(a.results, b.results)
    && ConditionsMatch(a.conditions, b.conditions)
  }

  method IndexVotes(options: seq<OptionResult>) returns (votes: map<string, Int32>)
    ensures var index := Index(OptionNames(options));
            votes.Keys == index.Keys && forall o | o in votes :: votes[o] == options[index[o]].votes
  {
    ghost var names := OptionNames(options);
    votes := map[];
    for j := 0 to |options|
      invariant votes.Keys == Index(names[..j]).Keys
      invariant forall o | o in votes :: votes[o] == options[Index(names[..j])[o]].votes
    {
      IndexStep(names, j);
      votes := votes[options[j].option := options[j].votes];
    }
    assert names[..|options|] == names;
  }

  method OptionsEqual(a: seq<OptionResult>, b: seq<OptionResult>) returns (eq: bool)
    requires |a| == |b|
    ensures eq == SameVotes(a, b)
  {
    var votes := IndexVotes(a);
    for j := 0 to |b|
      invariant forall k | 0 <= k < j :: VotesRead(a, b[k].option) == b[k].votes
    {
      if (if b[j].option in votes then votes[b[j].option] else 0) != b[j].votes {
        return false;
      }
    }
    return true;
  }

  method IndexRows(rows: seq<QuestionResult>) returns (byId: map<string, QuestionResult>)
    ensures var index := Index(ResultIds(rows));
            byId.Keys == index.Keys && forall id | id in byId :: byId[id] == rows[index[id]]
  {
    ghost var ids := ResultIds(rows);
    byId := map[];
    for i := 0 to |rows|
      invariant byId.Keys == Index(ids[..i]).Keys
      invariant forall id | id in byId :: byId[id] == rows[Index(ids[..i])[id]]
    {
      IndexStep(ids, i);
      byId := byId[rows[i].questionID := rows[i]];
    }
    assert ids[..|rows|] == ids;
  }

  method PollStatusEqual(a: PollStatus, b: PollStatus) returns (eq: bool)
    ensures eq == StatusEqual(a, b)
  {
    hide SameVotes, ConditionsMatch;
    var sameOpened := TimePtrEqual(a.openedAt, b.openedAt);
    var sameClosed := TimePtrEqual(a.closedAt, b.closedAt);
    if a.phase != b.phase || a.totalResponses != b.totalResponses || !sameOpened || !sameClosed {
      return false;
    }
    if |a.results| != |b.results| {
      return false;
    }
    var byId := IndexRows(a.results);
    for i := 0 to |b.results|
      invariant forall k | 0 <= k < i :: HasRow(a.results, b.results[k])
    {
      var br := b.results[i];
      if br.questionID !in byId {
        return false;
      }
      var ar := byId[br.questionID];
      if ar.responses != br.responses || |ar.options| != |br.options| {
        assert !SameVotes(ar.options, br.options) || ar.responses != br.responses by {
          LengthsDiffer(ar.options, br.options);
        }
        return false;
      }
      var same := OptionsEqual(ar.options, br.options);
      if !same {
        return false;
      }
    }
    eq := ConditionsEqualIgnoringTransition(a.conditions, b.conditions);
  }

  lemma LengthsDiffer(a: seq<OptionResult>, b: seq<OptionResult>)
    ensures |a| != |b| ==> !SameVotes(a, b)
  {
  }
}
