# Booking ledger and availability-rule editor

This project models two small pieces of a landing-page site that lets
visitors book a consultation:

- the server-side **booking ledger** of `src/app/actions/schedule-manager.ts`:
  an in-memory record from a date (`yyyy-MM-dd`) to the `HH:mm` times
  already booked on it, with the actions `getBookedSlots`,
  `attemptToBookSlot` and `resetBookedSlots`;
- the **specific-times editor** of the administrator's availability form
  (`src/components/admin/availability-form.tsx`): the `HH:MM` check, adding
  and removing times in the list, the rule built on submit (`UNAVAILABLE` or
  a non-empty list of times), and the form's first state derived from the
  rule being edited.

Files:

- `wrappers.dfy` — `Option`, for JavaScript's `undefined`.
- `lex_order.dfy` — the order of `Array.prototype.sort()` without a
  comparator on strings, an insertion sort for it, and the proof that a
  sorted permutation is unique (so the engine's own sort gives the same list).
- `time_format.dfy` — the `^([01]\d|2[0-3]):([0-5]\d)$` check, its
  characterisation as "the text of a time from 00:00 to 23:59", and the
  fact that on such texts the string order is the chronological order.
- `specific_times.dfy` — the pure list algebra of the form and the rule
  datatypes.
- `availability_form.dfy` — the form's state as a class whose methods are
  the component's handlers.
- `ledger.dfy` — the ledger as values, one booking attempt as a function,
  a replay of any sequence of the three actions, and the at-most-once
  property.
- `schedule_manager.dfy` — the ledger as the module-level record the
  actions update in place (class `SlotLedger`).

Three things the code does not do, although a booking service might be
expected to, and the model follows the code:

- the ledger appends a new booking at the end of the date's list
  (schedule-manager.ts line 33); it does not keep the list sorted;
- `attemptToBookSlot` consults no base schedule and no per-date rule: any
  time not yet booked on the date is accepted;
- there is no second "defensive" membership check; the one check at line 29
  is all there is.

## Model

| member | source | states |
|---|---|---|
| `ScheduleManager.SlotLedger.constructor` | src/app/actions/schedule-manager.ts:6 | the ledger starts empty and free of duplicates |
| `ScheduleManager.SlotLedger.GetBookedSlots` | src/app/actions/schedule-manager.ts:13-16 | returns the date's stored list, or the empty list when the date has no entry; the list never holds a time twice |
| `ScheduleManager.SlotLedger.AttemptToBookSlot` | src/app/actions/schedule-manager.ts:25-36 | succeeds exactly when the time is not yet booked on the date (no schedule or rule is consulted); on success the date's list becomes the old list (or the empty one) with the time appended, otherwise the ledger is unchanged; no other date changes; the no-duplicates invariant is kept |
| `ScheduleManager.SlotLedger.ResetBookedSlots` | src/app/actions/schedule-manager.ts:42-45 | the ledger is empty and every date reads as having nothing booked |
| `ScheduleManager.BookTwice` | src/app/actions/schedule-manager.ts:25-36 | a caller that attempts the same date and time twice gets success at most once, the second attempt always refused |
| `Ledger.BookedOn` | src/app/actions/schedule-manager.ts:15 | the lookup gives the date's stored list, or the empty list when the date has no entry |
| `Ledger.Step` | src/app/actions/schedule-manager.ts:13-45 | one action: a read changes nothing and returns the date's list, an attempt leaves the ledger as `AfterAttempt` gives it and always replies with an outcome, true exactly when the time is free, a reset empties the ledger |
| `Ledger.Replay` | src/app/actions/schedule-manager.ts:6-45 | running actions in order gives exactly one reply per action |
| `Ledger.ReplayOnlyGrows` | src/app/actions/schedule-manager.ts:25-36 | without a reset, every date's list at the end of a run extends its list at the start: bookings are only ever appended |
| `Ledger.ReplayAppend` | src/app/actions/schedule-manager.ts:6-45 | running two sequences of actions one after the other gives the same ledger and the same replies as running their concatenation |
| `Ledger.AfterAttempt` | src/app/actions/schedule-manager.ts:25-36 | after any attempt the date has an entry and the time is booked on it |
| `Ledger.AttemptOutcome` | src/app/actions/schedule-manager.ts:25-36 | an attempt replies true exactly when the time is free; then it appends the time, else nothing changes |
| `Ledger.AttemptFrame` | src/app/actions/schedule-manager.ts:25-36 | an attempt leaves every other date's entry, and whether it exists, unchanged |
| `Ledger.AttemptKeepsNoDoubleBooking` | src/app/actions/schedule-manager.ts:29-33 | an attempt keeps every date's list free of duplicates |
| `Ledger.ReplayKeepsNoDoubleBooking` | src/app/actions/schedule-manager.ts:6-45 | any sequence of the three actions keeps every date's list free of duplicates |
| `Ledger.BookedStaysRefused` | src/app/actions/schedule-manager.ts:25-45 | once a time is booked on a date, every attempt for it is refused up to the first reset, in any sequence of actions; with no reset it is still booked at the end |
| `Ledger.AtMostOnce` | src/app/actions/schedule-manager.ts:25-45 | in any sequence of actions, if an attempt for a date and time succeeds, every later attempt for the same pair fails unless a reset comes between them; resets before or after the two attempts do not matter |
| `Ledger.ResetClears` | src/app/actions/schedule-manager.ts:42-45 | after a reset every date reads as empty and a first attempt on any date and time succeeds |
| `LexOrder.Below` | src/components/admin/availability-form.tsx:69 | the default string comparison of `.sort()`: a string sorts no later than any string it is a prefix of, and later than any proper prefix of itself |
| `LexOrder.Insert` | src/components/admin/availability-form.tsx:69 | inserting keeps every element and adds the new one exactly once |
| `LexOrder.SortStrings` | src/components/admin/availability-form.tsx:69 | the result is sorted under the default string comparison and is a permutation of the input |
| `LexOrder.SortedPermutationUnique` | src/components/admin/availability-form.tsx:69 | two sorted permutations of the same strings are equal, so every correct sort of the list gives the same result |
| `TimeFormat.IsValidTime` | src/components/admin/availability-form.tsx:68 | the `HH:MM` pattern test of lines 27 and 68: an accepted string has exactly five characters, ASCII digits around a colon, an hour digit no more than 2 and a tens-of-minutes digit no more than 5 |
| `TimeFormat.ValidTimeIffFormatted` | src/components/admin/availability-form.tsx:68 | a string passes the `HH:MM` check exactly when it is the two-digit hour 00-23, a colon and the two-digit minute 00-59 |
| `TimeFormat.FormatParses` | src/components/admin/availability-form.tsx:68 | every formatted time passes the check and reads back as the same hour and minute |
| `TimeFormat.ParseFormats` | src/components/admin/availability-form.tsx:68 | every string that passes the check is the formatted text of its own hour and minute |
| `TimeFormat.BelowIsChronological` | src/components/admin/availability-form.tsx:69 | on valid times the default string order is the order of the times within the day |
| `SpecificTimes.AddTime` | src/components/admin/availability-form.tsx:68-75 | adding is accepted exactly when the time is valid and not yet listed; then the list is sorted and holds the old times plus the new one |
| `SpecificTimes.AddTimeKeepsTidy` | src/components/admin/availability-form.tsx:68-69 | adding to a sorted duplicate-free list keeps it sorted and duplicate-free, one longer, with the time inserted in place |
| `SpecificTimes.RemoveTime` | src/components/admin/availability-form.tsx:78-81 | removing drops every occurrence of the time and nothing else |
| `SpecificTimes.RemoveTimeAppend` | src/components/admin/availability-form.tsx:79 | removal distributes over concatenation, so the remaining times keep their order |
| `SpecificTimes.RemoveTimeIdempotent` | src/components/admin/availability-form.tsx:79 | removing twice equals removing once; removing an absent time changes nothing |
| `SpecificTimes.RemoveTimeKeepsTidy` | src/components/admin/availability-form.tsx:79 | removal keeps a sorted duplicate-free list sorted and duplicate-free |
| `SpecificTimes.AddThenRemove` | src/components/admin/availability-form.tsx:67-82 | removing a time just added to a sorted duplicate-free list gives the list back |
| `SpecificTimes.RemoveThenAdd` | src/components/admin/availability-form.tsx:67-82 | adding back a valid time just removed from a sorted duplicate-free list gives the list back |
| `SpecificTimes.RuleToSend` | src/components/admin/availability-form.tsx:89-98 | `UNAVAILABLE` always yields the whole-day rule; specific times are refused when absent or empty and otherwise sent as exactly that list; an empty list is never sent |
| `SpecificTimes.InitialTimes` | src/components/admin/availability-form.tsx:51-61 | the form opens with the edited rule's list when it is a list, else with none |
| `SpecificTimes.InitialRuleType` | src/components/admin/availability-form.tsx:60 | the form opens on specific times exactly when a rule is edited and it is not `UNAVAILABLE`, and on `UNAVAILABLE` when no rule is edited |
| `SpecificTimes.OpenThenSubmit` | src/components/admin/availability-form.tsx:51-100 | opening a rule in the form and submitting it unchanged sends that same rule, except an empty list, which is refused |
| `AvailabilityForm.Form.constructor` | src/components/admin/availability-form.tsx:51-63 | the first state: date, rule type and both copies of the times taken from the edited rule, an empty time input, not loading |
| `AvailabilityForm.Form.SelectDate` | src/components/admin/availability-form.tsx:142-145 | picking a date changes only the date |
| `AvailabilityForm.Form.SelectRuleType` | src/components/admin/availability-form.tsx:165 | the selector changes only the rule type |
| `AvailabilityForm.Form.SetNewTimeInput` | src/components/admin/availability-form.tsx:186 | typing changes only the time input |
| `AvailabilityForm.Form.HandleAddTime` | src/components/admin/availability-form.tsx:67-76 | accepted exactly when the input is a valid time not yet listed; then both copies of the list become the sorted list with it added and the input is cleared, otherwise nothing changes; a sorted duplicate-free list stays so and grows by one |
| `AvailabilityForm.Form.HandleRemoveTime` | src/components/admin/availability-form.tsx:78-82 | both copies of the list lose every occurrence of the time; a sorted duplicate-free list stays so |
| `AvailabilityForm.Form.Submit` | src/components/admin/availability-form.tsx:84-115 | sends `UNAVAILABLE` or the non-empty list for the form's date, or nothing when the list is empty; when the store accepts, the form is reset to today, `UNAVAILABLE` and no times, otherwise it is kept; the loading flag ends cleared, except when the awaited call is rejected, where the handler stops at the `await` with the flag still set |

## Left out

- The rule store (`updateDynamicAvailabilityRule`, `getDynamicAvailabilityRules`, `deleteDynamicAvailabilityRule`, `resetAllDataForPrototyping`) is not part of this model: the form imports it but its code is not among the modelled files. How it answers a submitted rule (accepted, refused, or the call rejected) is the parameter `reply` of `Form.Submit`; no base schedule, rule lookup or merge of rules with bookings is modelled.
- Concurrency: the actions are `async` but never wait, so each is modelled as one atomic step; the window between the check at schedule-manager.ts line 29 and the append at line 33 is not modelled.
- Aliasing: `getBookedSlots` hands out the ledger's own array; the model returns the list as a value, so a caller mutating it is not captured.
- JavaScript object keys: the ledger is a plain object, so a key such as `constructor` would find an inherited value; the model treats dates as opaque map keys, which holds for the `yyyy-MM-dd` texts callers pass.
- Dates: `parseISO`, `format` and `new Date()` come from a date library and the clock. The form keeps its date as the `yyyy-MM-dd` text it is submitted as, and the current day is the parameter `today`.
- The form schema and its resolver (availability-form.tsx lines 22-35) are not modelled: they run inside a validation library that is not part of this model. `Form.Submit` models the submit handler itself.
- `LexOrder.Below`: compares Dafny characters (Unicode scalar values) where the engine compares UTF-16 code units; the two orders differ only for characters above U+FFFF against characters from U+E000 to U+FFFF, never for the ASCII texts the time check admits.
- Notices (`toast`), the `onRuleAddedOrUpdated` callback, the calendar popover and all rendering are presentation; the error notices are the `false`/`None` results of the handlers.
- `BASE_AVAILABLE_TIMES` (availability-form.tsx line 44) is declared but unused in the form, so it appears nowhere in the model.
