/**
 Status conditions: how `meta.SetStatusCondition` updates a list of them, and
 how the controllers compare two lists.
 */
module Conditions {
  import opened Model

  /** The first place of a condition of type `t`, or the length when there is none. */
  function Find(conditions: seq<Condition>, t: ConditionType): (i: nat)
    ensures i <= |conditions|
    ensures i < |conditions| ==> conditions[i].ctype == t
    ensures forall j | 0 <= j < i :: conditions[j].ctype != t
  {
    if conditions == [] then 0
    else if conditions[0].ctype == t then 0
    else 1 + Find(conditions[1..], t)
  }

  /**
   Finds the condition by type and updates it, or appends it. The transition
   time of an existing condition moves only together with its status.
   */
  function SetStatusCondition(conditions: seq<Condition>, c: Condition): seq<Condition> {
    var i := Find(conditions, c.ctype);
    if i == |conditions| then conditions + [c]
    else if conditions[i].status == c.status then
      conditions[i := c.(lastTransitionTime := conditions[i].lastTransitionTime)]
    else conditions[i := c]
  }

  predicate SameButTransition(a: Condition, b: Condition) {
    && a.status == b.status
    && a.reason == b.reason
    && a.message == b.message
    && a.observedGeneration == b.observedGeneration
  }

  /** The last condition of `c`'s type in `a` equals `c`, apart from the transition time. */
  predicate HasMatch(a: seq<Condition>, c: Condition) {
    var byType := Index(ConditionTypes(a));
    c.ctype in byType && SameButTransition(a[byType[c.ctype]], c)
  }

  predicate ConditionsMatch(a: seq<Condition>, b: seq<Condition>) {
    |a| == |b| && forall i | 0 <= i < |b| :: HasMatch(a, b[i])
  }

  method TimePtrEqual(a: Option<Time>, b: Option<Time>) returns (eq: bool)
    ensures eq == (a == b)
  {
    if a == None || b == None {
      return a == None && b == None;
    }
    eq := a.value == b.value;
  }

  /** The map from type to condition that the comparison looks conditions up in. */
  method IndexByType(conditions: seq<Condition>) returns (byType: map<ConditionType, Condition>)
    ensures var index := Index(ConditionTypes(conditions));
            byType.Keys == index.Keys && forall t | t in byType :: byType[t] == conditions[index[t]]
  {
    ghost var types := ConditionTypes(conditions);
    byType := map[];
    for i := 0 to |conditions|
      invariant byType.Keys == Index(types[..i]).Keys
      invariant forall t | t in byType :: byType[t] == conditions[Index(types[..i])[t]]
    {
      IndexStep(types, i);
      byType := byType[conditions[i].ctype := conditions[i]];
    }
    assert types[..|conditions|] == types;
  }

  lemma MatchByIndex(a: seq<Condition>, byType: map<ConditionType, Condition>, c: Condition)
    requires var index := Index(ConditionTypes(a));
             byType.Keys == index.Keys && forall t | t in byType :: byType[t] == a[index[t]]
    ensures HasMatch(a, c) <==> c.ctype in byType && SameButTransition(byType[c.ctype], c)
  {
    hide SameButTransition;
    assert c.ctype in byType <==> c.ctype in byType.Keys;
  }

  method ConditionsEqualIgnoringTransition(a: seq<Condition>, b: seq<Condition>) returns (eq: bool)
    ensures eq == ConditionsMatch(a, b)
  {
    if |a| != |b| {
      return false;
    }
    hide HasMatch, SameButTransition, Index, ConditionTypes;
    var byType := IndexByType(a);
    for i := 0 to |b|
      invariant forall k | 0 <= k < i :: HasMatch(a, b[k])
    {
      var bc := b[i];
      MatchByIndex(a, byType, bc);
      if bc.ctype !in byType || !SameButTransition(byType[bc.ctype], bc) {
        return false;
      }
    }
    return true;
  }

  // ---------- What setting and comparing conditions achieve ----------

  /** Setting a condition never duplicates a type. */
  lemma SetKeepsTypesDistinct(conditions: seq<Condition>, c: Condition)
    requires Distinct(ConditionTypes(conditions))
    ensures Distinct(ConditionTypes(SetStatusCondition(conditions, c)))
  {
    var i := Find(conditions, c.ctype);
    var after := SetStatusCondition(conditions, c);
    assert forall j | 0 <= j < |conditions| :: ConditionTypes(conditions)[j] == conditions[j].ctype;
    assert forall j | 0 <= j < |after| :: ConditionTypes(after)[j] == after[j].ctype;
  }

  /** Whoever looks the type up afterwards finds what was set, dated by the last change of status. */
  lemma SetThenFind(conditions: seq<Condition>, c: Condition)
    ensures var after := SetStatusCondition(conditions, c);
            var i := Find(after, c.ctype);
            && i < |after| && SameButTransition(after[i], c) && after[i].ctype == c.ctype
            && (after[i].lastTransitionTime ==
                var j := Find(conditions, c.ctype);
                if j < |conditions| && conditions[j].status == c.status
                then conditions[j].lastTransitionTime else c.lastTransitionTime)
  {
    assert SetStatusCondition(conditions, c)[Find(conditions, c.ctype)].ctype == c.ctype;
  }

  lemma MatchAt(a: seq<Condition>, b: seq<Condition>, i: nat)
    requires Distinct(ConditionTypes(a)) && ConditionsMatch(a, b)
    requires i < |a| && a[i].ctype == b[i].ctype
    ensures SameButTransition(a[i], b[i])
  {
    IndexOfDistinct(ConditionTypes(a), i);
    assert HasMatch(a, b[i]);
  }

  /**
   Ignoring the transition time loses nothing: when a condition was set in a
   list without repeated types and the result compares equal, it is identical.
   */
  lemma MatchAfterSet(conditions: seq<Condition>, c: Condition)
    requires Distinct(ConditionTypes(conditions))
    requires ConditionsMatch(conditions, SetStatusCondition(conditions, c))
    ensures SetStatusCondition(conditions, c) == conditions
  {
    var i := Find(conditions, c.ctype);
    assert i < |conditions|;
    MatchAt(conditions, SetStatusCondition(conditions, c), i);
  }

  /** The same for two settings in a row, of different types. */
  lemma MatchAfterTwoSets(conditions: seq<Condition>, c: Condition, d: Condition)
    requires Distinct(ConditionTypes(conditions)) && c.ctype != d.ctype
    requires ConditionsMatch(conditions, SetStatusCondition(SetStatusCondition(conditions, c), d))
    ensures SetStatusCondition(SetStatusCondition(conditions, c), d) == conditions
  {
    var once := SetStatusCondition(conditions, c);
    var twice := SetStatusCondition(once, d);
    var i, j := Find(conditions, c.ctype), Find(once, d.ctype);
    assert i < |conditions| && j < |conditions|;
    assert once[i].ctype == c.ctype && i != j;
    MatchAt(conditions, twice, i);
    assert SetStatusCondition(conditions, c) == conditions;
    MatchAt(conditions, twice, j);
  }

  lemma MatchesItself(conditions: seq<Condition>)
    requires Distinct(ConditionTypes(conditions))
    ensures ConditionsMatch(conditions, conditions)
  {
    forall i | 0 <= i < |conditions| ensures HasMatch(conditions, conditions[i]) {
      IndexOfDistinct(ConditionTypes(conditions), i);
    }
  }
}
