/**
 The tally of a Poll over the stored responses, counted as sets of responses,
 and the proof that aggregating any listing of the store gives exactly that.
 */
module StoreTally {
  import opened Model
  import opened PollWebhook
  import opened PollResponseWebhook
  import opened Tally
  import opened TallyLaws
  import opened PollStatusLaws

  type Store = map<string, PollResponse>

  ghost predicate AdmittedStore(responses: Store) {
    forall r | r in responses :: AdmittedResponse(responses[r].spec)
  }

  /** The accepted responses to the Poll. */
  ghost function CountedNames(responses: Store, p: string): set<string> {
    set r | r in responses && CountedFor(p, responses[r])
  }

  /** Those that answer question `id`. */
  ghost function Answering(responses: Store, p: string, id: string): set<string> {
    set r | r in responses && CountedFor(p, responses[r]) && id in AnswerIds(responses[r].spec.answers)
  }

  ghost predicate Chooses(answers: seq<Answer>, id: string, o: string) {
    exists k | 0 <= k < |answers| :: answers[k].questionID == id && o in answers[k].selectedOptions
  }

  /** Those that choose option `o` of question `id`. */
  ghost function Choosing(responses: Store, p: string, id: string, o: string): set<string> {
    set r | r in responses && CountedFor(p, responses[r]) && Chooses(responses[r].spec.answers, id, o)
  }

  ghost function StoreRow(responses: Store, p: string, q: Question): QuestionResult {
    var options := OptionsOf(q);
    QuestionResult(q.id,
      seq(|options|, j requires 0 <= j < |options| =>
        OptionResult(options[j], ToInt32(|Choosing(responses, p, q.id, options[j])|))),
      ToInt32(|Answering(responses, p, q.id)|))
  }

  ghost function StoreRows(responses: Store, p: string, questions: seq<Question>): seq<QuestionResult> {
    seq(|questions|, i requires 0 <= i < |questions| => StoreRow(responses, p, questions[i]))
  }

  ghost function StoreTotal(responses: Store, p: string): Int32 {
    ToInt32(|CountedNames(responses, p)|)
  }

  // ---------- Any listing gives this tally ----------

  /** `names` lists every stored response once, in some order. */
  ghost predicate Lists(names: seq<string>, responses: Store) {
    && Distinct(names)
    && (forall i | 0 <= i < |names| :: names[i] in responses)
    && (forall r | r in responses :: r in names)
  }

  function Values(responses: Store, names: seq<string>): seq<PollResponse>
    requires forall i | 0 <= i < |names| :: names[i] in responses
  {
    seq(|names|, i requires 0 <= i < |names| => responses[names[i]])
  }

  lemma ChoosesSnoc(answers: seq<Answer>, a: Answer, id: string, o: string)
    ensures Chooses(answers + [a], id, o) <==> Chooses(answers, id, o) || (a.questionID == id && o in a.selectedOptions)
  {
    var all := answers + [a];
    if k :| 0 <= k < |answers| && answers[k].questionID == id && o in answers[k].selectedOptions {
      assert all[k] == answers[k];
    }
    assert all[|answers|] == a;
  }

  lemma {:induction false} OneVoteEach(answers: seq<Answer>, id: string, o: string)
    requires Distinct(AnswerIds(answers))
    requires forall i | 0 <= i < |answers| :: Distinct(answers[i].selectedOptions)
    ensures VotesFor(id, o, answers) == if Chooses(answers, id, o) then 1 else 0
  {
    if answers != [] {
      var n := |answers| - 1;
      var ids := AnswerIds(answers);
      assert AnswerIds(answers[..n]) == ids[..n];
      OneVoteEach(answers[..n], id, o);
      AtMostOnce(answers[n].selectedOptions, o);
      assert answers == answers[..n] + [answers[n]];
      ChoosesSnoc(answers[..n], answers[n], id, o);
      if k :| 0 <= k < n && answers[..n][k].questionID == id && o in answers[..n][k].selectedOptions {
        assert ids[k] == id && ids[n] == answers[n].questionID;
      }
    }
  }

  lemma TallyOfOne(spec: ResponseSpec, id: string, o: string)
    requires AdmittedResponse(spec)
    ensures AnswersTo(id, spec.answers) == if id in AnswerIds(spec.answers) then 1 else 0
    ensures VotesFor(id, o, spec.answers) == if Chooses(spec.answers, id, o) then 1 else 0
  {
    forall i | 0 <= i < |spec.answers| ensures Distinct(spec.answers[i].selectedOptions) {
      assert WellFormedAnswer(spec.answers[i]);
    }
    OneAnswerEach(id, spec.answers);
    OneVoteEach(spec.answers, id, o);
  }

  /** One more stored response adds one to each of the sets it belongs to. */
  lemma TallyOfOneMore(responses: Store, values: seq<PollResponse>, x: string, p: string, id: string, o: string)
    requires AdmittedStore(responses) && x in responses
    ensures var more := values + [responses[x]];
            && AnswersTo(id, Pool(p, more)) ==
               AnswersTo(id, Pool(p, values)) + (if x in Answering(responses, p, id) then 1 else 0)
            && VotesFor(id, o, Pool(p, more)) ==
               VotesFor(id, o, Pool(p, values)) + (if x in Choosing(responses, p, id, o) then 1 else 0)
            && CountedResponses(p, more) ==
               CountedResponses(p, values) + (if x in CountedNames(responses, p) then 1 else 0)
  {
    hide AnswersTo, VotesFor, CountedResponses, Pool, Chooses, AdmittedResponse;
    var r := responses[x];
    PoolSnoc(p, values, r);
    AnswersToConcat(id, Pool(p, values), r.spec.answers);
    VotesForConcat(id, o, Pool(p, values), r.spec.answers);
    TallyOfOne(r.spec, id, o);
  }

  lemma PrefixStep(responses: Store, names: seq<string>, m: nat)
    requires Lists(names, responses) && m < |names|
    ensures names[m] !in Elements(names[..m])
    ensures Elements(names[..m + 1]) == Elements(names[..m]) + {names[m]}
    ensures Values(responses, names[..m + 1]) == Values(responses, names[..m]) + [responses[names[m]]]
  {
    assert names[..m + 1] == names[..m] + [names[m]];
  }

  /** How many of `s` are among those seen. */
  ghost function SeenOf(s: set<string>, seen: set<string>): nat {
    |s * seen|
  }

  lemma OneMoreSeen(s: set<string>, seen: set<string>, x: string)
    requires x !in seen
    ensures SeenOf(s, seen + {x}) == SeenOf(s, seen) + if x in s then 1 else 0
  {
    if x in s {
      assert s * (seen + {x}) == s * seen + {x};
    } else {
      assert s * (seen + {x}) == s * seen;
    }
  }

  lemma NoneSeen(p: string, id: string, o: string, a: set<string>, c: set<string>, n: set<string>)
    ensures var seen := Elements<string>([]);
            && AnswersTo(id, Pool(p, [])) == SeenOf(a, seen)
            && VotesFor(id, o, Pool(p, [])) == SeenOf(c, seen)
            && CountedResponses(p, []) == SeenOf(n, seen)
  {
    assert Elements<string>([]) == {};
  }

  lemma {:induction false} TallyOfPrefix(responses: Store, names: seq<string>, n: nat, p: string, id: string, o: string)
    requires AdmittedStore(responses) && Lists(names, responses) && n <= |names|
    ensures var values, seen := Values(responses, names[..n]), Elements(names[..n]);
            && AnswersTo(id, Pool(p, values)) == SeenOf(Answering(responses, p, id), seen)
            && VotesFor(id, o, Pool(p, values)) == SeenOf(Choosing(responses, p, id, o), seen)
            && CountedResponses(p, values) == SeenOf(CountedNames(responses, p), seen)
  {
    hide AnswersTo, VotesFor, Pool, CountedResponses, AdmittedStore;
    hide Answering, Choosing, CountedNames, SeenOf;
    if n == 0 {
      NoneSeen(p, id, o, Answering(responses, p, id), Choosing(responses, p, id, o), CountedNames(responses, p));
      assert names[..0] == [] && Values(responses, []) == [];
    } else {
      var m, x := n - 1, names[n - 1];
      TallyOfPrefix(responses, names, m, p, id, o);
      PrefixStep(responses, names, m);
      TallyOfOneMore(responses, Values(responses, names[..m]), x, p, id, o);
      OneMoreSeen(Answering(responses, p, id), Elements(names[..m]), x);
      OneMoreSeen(Choosing(responses, p, id, o), Elements(names[..m]), x);
      OneMoreSeen(CountedNames(responses, p), Elements(names[..m]), x);
    }
  }

  lemma TallyOfListing(responses: Store, names: seq<string>, p: string, id: string, o: string)
    requires AdmittedStore(responses) && Lists(names, responses)
    ensures var pool := Pool(p, Values(responses, names));
            && AnswersTo(id, pool) == |Answering(responses, p, id)|
            && VotesFor(id, o, pool) == |Choosing(responses, p, id, o)|
            && CountedResponses(p, Values(responses, names)) == |CountedNames(responses, p)|
  {
    hide AnswersTo, VotesFor, Pool, CountedResponses;
    TallyOfPrefix(responses, names, |names|, p, id, o);
    assert names[..|names|] == names;
    assert Elements(names) == responses.Keys;
    assert Answering(responses, p, id) * Elements(names) == Answering(responses, p, id);
    assert Choosing(responses, p, id, o) * Elements(names) == Choosing(responses, p, id, o);
    assert CountedNames(responses, p) * Elements(names) == CountedNames(responses, p);
  }

  /** Aggregating a listing, whatever its order, gives the tally of the store. */
  lemma AggregationIsStoreTally(responses: Store, names: seq<string>, p: string, spec: PollSpec)
    requires AdmittedPoll(spec) && AdmittedStore(responses) && Lists(names, responses)
    ensures Rows(spec.questions, Pool(p, Values(responses, names))) == StoreRows(responses, p, spec.questions)
    ensures ToInt32(CountedResponses(p, Values(responses, names))) == StoreTotal(responses, p)
  {
    TallyOfListing(responses, names, p, "", "");
    var pool := Pool(p, Values(responses, names));
    forall i | 0 <= i < |spec.questions|
      ensures Row(spec.questions[i], pool) == StoreRow(responses, p, spec.questions[i])
    {
      assert WellFormedQuestion(spec.questions[i]);
      RowIsStoreRow(responses, names, p, spec.questions[i]);
    }
    hide Row, StoreRow;
  }

  lemma RowIsStoreRow(responses: Store, names: seq<string>, p: string, q: Question)
    requires WellFormedQuestion(q) && AdmittedStore(responses) && Lists(names, responses)
    ensures Row(q, Pool(p, Values(responses, names))) == StoreRow(responses, p, q)
  {
    TallyOfListing(responses, names, p, q.id, "");
    var pool := Pool(p, Values(responses, names));
    forall j | 0 <= j < |OptionsOf(q)|
      ensures OptionRow(q, j, pool) ==
              OptionResult(OptionsOf(q)[j], ToInt32(|Choosing(responses, p, q.id, OptionsOf(q)[j])|))
    {
      TallyOfListing(responses, names, p, q.id, OptionsOf(q)[j]);
      IndexOfDistinct(OptionsOf(q), j);
    }
    hide OptionRow, OptionsOf, ToInt32, Pool, AnswersTo, Answering, Choosing, Lists, AdmittedStore;
    assert Row(q, pool).options == StoreRow(responses, p, q).options;
  }

  // ---------- What the tally depends on ----------

  /** Both stores hold the same responses to `p`. */
  ghost predicate SameResponsesTo(a: Store, b: Store, p: string) {
    && (forall r | r in a && a[r].spec.pollRef == p :: r in b && b[r] == a[r])
    && (forall r | r in b && b[r].spec.pollRef == p :: r in a && a[r] == b[r])
  }

  lemma TallyDependsOnOwnResponses(a: Store, b: Store, p: string, questions: seq<Question>)
    requires SameResponsesTo(a, b, p)
    ensures StoreRows(a, p, questions) == StoreRows(b, p, questions)
    ensures StoreTotal(a, p) == StoreTotal(b, p)
  {
    assert CountedNames(a, p) == CountedNames(b, p);
    forall q: Question ensures StoreRow(a, p, q) == StoreRow(b, p, q) {
      RowDependsOnOwnResponses(a, b, p, q);
    }
    hide StoreRow;
  }

  lemma RowDependsOnOwnResponses(a: Store, b: Store, p: string, q: Question)
    requires SameResponsesTo(a, b, p)
    ensures StoreRow(a, p, q) == StoreRow(b, p, q)
  {
    assert Answering(a, p, q.id) == Answering(b, p, q.id);
    forall o: string ensures Choosing(a, p, q.id, o) == Choosing(b, p, q.id, o) {
    }
    hide SameResponsesTo, Answering, Choosing, OptionsOf, ToInt32;
    assert StoreRow(a, p, q).options == StoreRow(b, p, q).options;
  }

  lemma StoreRowsShape(responses: Store, p: string, spec: PollSpec)
    ensures ShapedLike(StoreRows(responses, p, spec.questions), spec.questions)
  {
    var rows := StoreRows(responses, p, spec.questions);
    forall i | 0 <= i < |rows| ensures OptionNames(rows[i].options) == OptionsOf(spec.questions[i]) {
      hide OptionsOf, Answering, Choosing, ToInt32;
    }
    hide OptionsOf, Answering, Choosing, ToInt32;
    assert ResultIds(rows) == QuestionIds(spec.questions);
  }
}
