/**
 * The list algebra of the availability form: adding a time to the list of
 * specific times, removing one, building the rule that is sent when the
 * form is submitted, and deriving the form's first state from the rule
 * being edited.
 */
module SpecificTimes {
  import opened Wrappers
  import opened LexOrder
  import opened TimeFormat

  /** A date's availability rule: the whole day off, or only the listed times. */
  datatype Rule = Unavailable | Times(times: seq<string>)

  /** The form's rule-type selector (`UNAVAILABLE` / `SPECIFIC_TIMES`). */
  datatype RuleType = UnavailableDay | SpecificTimesSelected

  /** The rule handed to the form for editing, with the date it belongs to. */
  datatype InitialRule = InitialRule(dateISO: string, rule: Rule)

  /** The list is in the form's display order with no time twice. */
  ghost predicate Tidy(times: seq<string>)
  {
    Sorted(times) && Distinct(times)
  }

  /**
   * Adding `t`: refused (None, an error notice) unless `t` is a valid time
   * not yet listed; otherwise the list with `t` appended, then sorted.
   */
  function AddTime(times: seq<string>, t: string): (r: Option<seq<string>>)
    ensures r.Some? <==> IsValidTime(t) && t !in times
    ensures r.Some? ==> Sorted(r.value) && multiset(r.value) == multiset(times) + multiset{t}
  {
    if IsValidTime(t) && t !in times then Some(SortStrings(times + [t])) else None
  }

  /** Removing `t`: every occurrence of `t` dropped, the rest kept in order. */
  function RemoveTime(times: seq<string>, t: string): (r: seq<string>)
    ensures t !in r
    ensures forall x :: x in r <==> x in times && x != t
    ensures multiset(r) == multiset(times)[t := 0]
    ensures |r| <= |times|
  {
    if times == [] then []
    else
      assert times == [times[0]] + times[1..];
      (if times[0] == t then [] else [times[0]]) + RemoveTime(times[1..], t)
  }

  /**
   * The rule sent on submit, or None when the selector says specific
   * times and there are none (an error notice, nothing sent). An absent
   * list counts as the empty one.
   */
  function RuleToSend(ruleType: RuleType, specificTimes: Option<seq<string>>): (r: Option<Rule>)
    ensures ruleType == UnavailableDay ==> r == Some(Unavailable)
    ensures ruleType == SpecificTimesSelected ==>
      (r.None? <==> specificTimes.None? || specificTimes.value == [])
    ensures ruleType == SpecificTimesSelected && specificTimes.Some? && specificTimes.value != [] ==>
      r == Some(Times(specificTimes.value))
    ensures r.Some? && r.value.Times? ==> specificTimes == Some(r.value.times)
    ensures r != Some(Times([]))
  {
    match ruleType
    case UnavailableDay => Some(Unavailable)
    case SpecificTimesSelected =>
      var times := if specificTimes.Some? then specificTimes.value else [];
      if times == [] then None else Some(Times(times))
  }

  /** The times list a form opens with: the edited rule's list, if it has one. */
  function InitialTimes(initialRule: Option<InitialRule>): (r: seq<string>)
    ensures initialRule.None? ==> r == []
    ensures initialRule.Some? && initialRule.value.rule.Times? ==> r == initialRule.value.rule.times
    ensures initialRule.Some? && initialRule.value.rule == Unavailable ==> r == []
  {
    if initialRule.Some? && initialRule.value.rule.Times? then initialRule.value.rule.times else []
  }

  /** The rule type a form opens with: specific times exactly when a list rule is edited. */
  function InitialRuleType(initialRule: Option<InitialRule>): (r: RuleType)
    ensures r == SpecificTimesSelected <==> initialRule.Some? && initialRule.value.rule != Unavailable
    ensures initialRule.None? ==> r == UnavailableDay
  {
    if initialRule.Some? then
      if initialRule.value.rule == Unavailable then UnavailableDay else SpecificTimesSelected
    else UnavailableDay
  }

  /** Opening a rule in the form and submitting it unchanged sends that same rule, unless it is an empty list. */
  lemma OpenThenSubmit(initial: InitialRule)
    ensures RuleToSend(InitialRuleType(Some(initial)), Some(InitialTimes(Some(initial))))
      == if initial.rule == Times([]) then None else Some(initial.rule)
  {
  }

  /** A successful add keeps a tidy list tidy and makes it exactly one longer. */
  lemma AddTimeKeepsTidy(times: seq<string>, t: string)
    requires Tidy(times)
    requires AddTime(times, t).Some?
    ensures Tidy(AddTime(times, t).value)
    ensures |AddTime(times, t).value| == |times| + 1
    ensures AddTime(times, t).value == Insert(times, t)
  {
    SortAppendIsInsert(times, t);
    InsertSorted(times, t);
    InsertDistinct(times, t);
  }

  lemma {:induction false} RemoveTimeAbsent(times: seq<string>, t: string)
    requires t !in times
    ensures RemoveTime(times, t) == times
  {
    if times != [] {
      RemoveTimeAbsent(times[1..], t);
      assert times == [times[0]] + times[1..];
    }
  }

  /** Removing an absent time is a no-op, and removing twice is removing once. */
  lemma RemoveTimeIdempotent(times: seq<string>, t: string)
    ensures RemoveTime(RemoveTime(times, t), t) == RemoveTime(times, t)
    ensures t !in times ==> RemoveTime(times, t) == times
  {
    RemoveTimeAbsent(RemoveTime(times, t), t);
    if t !in times {
      RemoveTimeAbsent(times, t);
    }
  }

  /** Removal works piecewise: it keeps the relative order of what remains. */
  lemma {:induction false} RemoveTimeAppend(a: seq<string>, b: seq<string>, t: string)
    ensures RemoveTime(a + b, t) == RemoveTime(a, t) + RemoveTime(b, t)
  {
    if a == [] {
      assert a + b == b;
    } else {
      assert (a + b)[1..] == a[1..] + b;
      RemoveTimeAppend(a[1..], b, t);
    }
  }

  /** Removal keeps the list in order, so a tidy list stays tidy. */
  lemma {:induction false} RemoveTimeKeepsTidy(times: seq<string>, t: string)
    requires Tidy(times)
    ensures Tidy(RemoveTime(times, t))
  {
    if times != [] {
      RemoveTimeKeepsTidy(times[1..], t);
      var rest := RemoveTime(times[1..], t);
      if times[0] != t {
        var r := [times[0]] + rest;
        forall k | 0 <= k < |rest| ensures Below(times[0], rest[k]) && times[0] != rest[k] {
          assert rest[k] in times[1..];
          var m :| 0 <= m < |times[1..]| && times[1..][m] == rest[k];
          assert times[m + 1] == rest[k];
        }
        forall i, j | 0 <= i < j < |r| ensures Below(r[i], r[j]) && r[i] != r[j] {
          if i == 0 {
            assert r[j] == rest[j - 1];
          } else {
            assert r[i] == rest[i - 1] && r[j] == rest[j - 1];
          }
        }
      }
    }
  }

  /** Removing a time just added to a tidy list gives back the list. */
  lemma AddThenRemove(times: seq<string>, t: string)
    requires Tidy(times)
    requires AddTime(times, t).Some?
    ensures RemoveTime(AddTime(times, t).value, t) == times
  {
    AddTimeKeepsTidy(times, t);
    RemoveInsert(times, t);
  }

  lemma {:induction false} RemoveInsert(times: seq<string>, t: string)
    requires t !in times
    ensures RemoveTime(Insert(times, t), t) == times
  {
    if times == [] {
    } else if Below(t, times[0]) {
      assert ([t] + times)[1..] == times;
      RemoveTimeAbsent(times, t);
    } else {
      RemoveInsert(times[1..], t);
      assert times == [times[0]] + times[1..];
    }
  }

  /** Adding back a valid time just removed from a tidy list gives back the list. */
  lemma RemoveThenAdd(times: seq<string>, t: string)
    requires Tidy(times) && t in times && IsValidTime(t)
    ensures AddTime(RemoveTime(times, t), t) == Some(times)
  {
    RemoveTimeKeepsTidy(times, t);
    SortAppendIsInsert(RemoveTime(times, t), t);
    InsertRemove(times, t);
  }

  lemma {:induction false} InsertRemove(times: seq<string>, t: string)
    requires Tidy(times) && t in times
    ensures Insert(RemoveTime(times, t), t) == times
  {
    if times[0] == t {
      InsertRemoveHead(times, t);
    } else {
      var m :| 0 <= m < |times| && times[m] == t;
      assert Below(times[0], t);
      assert !Below(t, times[0]) by {
        if Below(t, times[0]) { BelowAntisymmetric(t, times[0]); }
      }
      assert Tidy(times[1..]);
      InsertRemove(times[1..], t);
      InsertRemoveLater(times[0], times[1..], t);
      assert times == [times[0]] + times[1..];
    }
  }

  lemma InsertRemoveHead(times: seq<string>, t: string)
    requires Tidy(times) && times != [] && times[0] == t
    ensures Insert(RemoveTime(times, t), t) == times
  {
    var tail := times[1..];
    assert times == [t] + tail;
    assert t !in tail;
    RemoveTimeAbsent(tail, t);
    assert RemoveTime(times, t) == tail;
    if tail != [] {
      assert Below(t, tail[0]) by { assert tail[0] == times[1]; }
    }
  }

  lemma InsertRemoveLater(head: string, tail: seq<string>, t: string)
    requires head != t && !Below(t, head)
    requires Insert(RemoveTime(tail, t), t) == tail
    ensures Insert(RemoveTime([head] + tail, t), t) == [head] + tail
  {
    RemoveTimeCons(head, tail, t);
    InsertPast(head, RemoveTime(tail, t), t);
  }

  lemma RemoveTimeCons(head: string, tail: seq<string>, t: string)
    ensures RemoveTime([head] + tail, t) == (if head == t then [] else [head]) + RemoveTime(tail, t)
  {
    assert ([head] + tail)[1..] == tail;
  }

  lemma InsertPast(head: string, tail: seq<string>, t: string)
    requires !Below(t, head)
    ensures Insert([head] + tail, t) == [head] + Insert(tail, t)
  {
    assert ([head] + tail)[1..] == tail;
  }
}
