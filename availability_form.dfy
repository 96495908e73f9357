/**
 * The state of the availability-rule editor and its handlers. The React
 * component keeps the listed times twice, once as its own state
 * (`currentSpecificTimes`) and once as the form field `specificTimes`;
 * every handler writes both, which `Valid` records.
 *
 * The date is kept as the opaque `yyyy-MM-dd` text it is submitted as.
 * The rule-store action the submit handler calls is not part of this
 * model: how it answers arrives as the parameter `reply`.
 */
module AvailabilityForm {
  import opened Wrappers
  import opened TimeFormat
  import opened SpecificTimes

  /** What the submit handler asks the rule store to record. */
  datatype UpdateRequest = UpdateRequest(dateISO: string, rule: Rule)

  /**
   * How the awaited rule-store action ends: a result with `success` true,
   * one with `success` false, or a rejected call (the handler has no
   * `catch`, so it stops at the `await`).
   */
  datatype ServerReply = Accepted | Refused | Failed

  class Form {
    var dateISO: string
    var ruleType: RuleType
    var specificTimes: seq<string>
    var currentSpecificTimes: seq<string>
    var newTimeInput: string
    var isLoading: bool

    ghost predicate Valid()
      reads this
    {
      specificTimes == currentSpecificTimes
    }

    /** The first render: defaults taken from the rule being edited, if any; `today` stands for the clock. */
    constructor (initialRule: Option<InitialRule>, today: string)
      ensures Valid()
      ensures dateISO == if initialRule.Some? then initialRule.value.dateISO else today
      ensures ruleType == InitialRuleType(initialRule)
      ensures currentSpecificTimes == InitialTimes(initialRule)
      ensures newTimeInput == "" && !isLoading
    {
      dateISO := if initialRule.Some? then initialRule.value.dateISO else today;
      ruleType := InitialRuleType(initialRule);
      currentSpecificTimes := InitialTimes(initialRule);
      specificTimes := InitialTimes(initialRule);
      newTimeInput := "";
      isLoading := false;
    }

    /** The date picker's selection. */
    method SelectDate(d: string)
      modifies this
      ensures dateISO == d
      ensures ruleType == old(ruleType) && specificTimes == old(specificTimes)
      ensures currentSpecificTimes == old(currentSpecificTimes)
      ensures newTimeInput == old(newTimeInput) && isLoading == old(isLoading)
    {
      dateISO := d;
    }

    /** The rule-type selector's change. */
    method SelectRuleType(t: RuleType)
      modifies this
      ensures ruleType == t
      ensures dateISO == old(dateISO) && specificTimes == old(specificTimes)
      ensures currentSpecificTimes == old(currentSpecificTimes)
      ensures newTimeInput == old(newTimeInput) && isLoading == old(isLoading)
    {
      ruleType := t;
    }

    /** Typing in the time input. */
    method SetNewTimeInput(s: string)
      modifies this
      ensures newTimeInput == s
      ensures dateISO == old(dateISO) && ruleType == old(ruleType)
      ensures specificTimes == old(specificTimes) && currentSpecificTimes == old(currentSpecificTimes)
      ensures isLoading == old(isLoading)
    {
      newTimeInput := s;
    }

    /**
     * The "add time" button. `accepted` is false when the error notice is
     * shown instead: an input that is not `HH:MM` or is already listed.
     */
    method HandleAddTime() returns (accepted: bool)
      requires Valid()
      modifies this
      ensures Valid()
      ensures accepted <==> IsValidTime(old(newTimeInput)) && old(newTimeInput) !in old(currentSpecificTimes)
      ensures accepted ==> currentSpecificTimes == AddTime(old(currentSpecificTimes), old(newTimeInput)).value
      ensures accepted ==> newTimeInput == ""
      ensures accepted ==> multiset(currentSpecificTimes) == multiset(old(currentSpecificTimes)) + multiset{old(newTimeInput)}
      ensures !accepted ==> currentSpecificTimes == old(currentSpecificTimes) && newTimeInput == old(newTimeInput)
      ensures old(Tidy(currentSpecificTimes)) ==> Tidy(currentSpecificTimes)
      ensures old(Tidy(currentSpecificTimes)) && accepted ==> |currentSpecificTimes| == old(|currentSpecificTimes|) + 1
      ensures dateISO == old(dateISO) && ruleType == old(ruleType) && isLoading == old(isLoading)
    {
      var added := AddTime(currentSpecificTimes, newTimeInput);
      if added.Some? {
        if Tidy(currentSpecificTimes) {
          AddTimeKeepsTidy(currentSpecificTimes, newTimeInput);
        }
        currentSpecificTimes := added.value;
        specificTimes := added.value;
        newTimeInput := "";
        accepted := true;
      } else {
        accepted := false;
      }
    }

    /** A time's delete button. */
    method HandleRemoveTime(timeToRemove: string)
      requires Valid()
      modifies this
      ensures Valid()
      ensures currentSpecificTimes == RemoveTime(old(currentSpecificTimes), timeToRemove)
      ensures timeToRemove !in currentSpecificTimes
      ensures old(Tidy(currentSpecificTimes)) ==> Tidy(currentSpecificTimes)
      ensures dateISO == old(dateISO) && ruleType == old(ruleType)
      ensures newTimeInput == old(newTimeInput) && isLoading == old(isLoading)
    {
      if Tidy(currentSpecificTimes) {
        RemoveTimeKeepsTidy(currentSpecificTimes, timeToRemove);
      }
      var updated := RemoveTime(currentSpecificTimes, timeToRemove);
      currentSpecificTimes := updated;
      specificTimes := updated;
    }

    /**
     * Submitting the form. `request` is what was sent to the rule store
     * (None: nothing was sent, the "add at least one time" notice was
     * shown). When the store accepts, the form is cleared back to its
     * defaults with `today` as the date. When the call itself fails, the
     * handler stops at the `await`: the loading flag stays set and
     * nothing else changes.
     */
    method Submit(reply: ServerReply, today: string) returns (request: Option<UpdateRequest>)
      requires Valid()
      modifies this
      ensures Valid()
      ensures old(ruleType) == UnavailableDay ==> request == Some(UpdateRequest(old(dateISO), Unavailable))
      ensures old(ruleType) == SpecificTimesSelected ==>
        request == if old(specificTimes) == [] then None else Some(UpdateRequest(old(dateISO), Times(old(specificTimes))))
      ensures isLoading <==> request.Some? && reply == Failed
      ensures request.Some? && reply == Accepted ==>
        dateISO == today && ruleType == UnavailableDay && currentSpecificTimes == []
      ensures request.None? || reply != Accepted ==>
        dateISO == old(dateISO) && ruleType == old(ruleType) && currentSpecificTimes == old(currentSpecificTimes)
      ensures newTimeInput == old(newTimeInput)
    {
      isLoading := true;
      var rule := RuleToSend(ruleType, Some(specificTimes));
      if rule.None? {
        isLoading := false;
        request := None;
        return;
      }
      request := Some(UpdateRequest(dateISO, rule.value));
      if reply == Failed {
        return;
      }
      if reply == Accepted {
        dateISO := today;
        ruleType := UnavailableDay;
        specificTimes := [];
        currentSpecificTimes := [];
      }
      isLoading := false;
    }
  }
}
