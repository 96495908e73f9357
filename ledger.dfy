/**
 * The booking ledger as values: a record from a date (an opaque
 * `yyyy-MM-dd` key) to the `HH:mm` times booked on it, in booking order.
 * `AfterAttempt` is the effect of one booking attempt; `Replay` runs a
 * sequence of the ledger's three server actions, one after the other.
 * The lemmas state what the actions promise: a booking lands at most
 * once per date and time until the ledger is reset, and an attempt
 * touches no other date.
 */
module Ledger {
  import opened LexOrder

  type Bookings = map<string, seq<string>>

  /** The times booked on `dateISO`: its entry, or none. */
  function BookedOn(bookings: Bookings, dateISO: string): (r: seq<string>)
    ensures dateISO in bookings ==> r == bookings[dateISO]
    ensures dateISO !in bookings ==> r == []
  {
    if dateISO in bookings then bookings[dateISO] else []
  }

  /** No date lists a time twice. */
  ghost predicate NoDoubleBooking(bookings: Bookings)
  {
    forall d | d in bookings :: Distinct(bookings[d])
  }

  /** The ledger after an attempt to book `time` on `dateISO`: the time appended unless already there. */
  function AfterAttempt(bookings: Bookings, dateISO: string, time: string): (r: Bookings)
    ensures dateISO in r
    ensures time in BookedOn(r, dateISO)
  {
    var booked := BookedOn(bookings, dateISO);
    if time in booked then bookings else bookings[dateISO := booked + [time]]
  }

  /** The three server actions of the ledger. */
  datatype Call =
    | GetBookedSlots(dateISO: string)
    | AttemptToBookSlot(dateISO: string, time: string)
    | ResetBookedSlots

  /** What each action returns to its caller. */
  datatype Reply = Slots(times: seq<string>) | Outcome(booked: bool) | Cleared

  /** One action: a read changes nothing, an attempt succeeds exactly on a free time, a reset empties the ledger. */
  function Step(bookings: Bookings, call: Call): (r: (Bookings, Reply))
    ensures call.GetBookedSlots? ==> r.0 == bookings && r.1 == Slots(BookedOn(bookings, call.dateISO))
    ensures call.AttemptToBookSlot? ==> r.1.Outcome? && r.0 == AfterAttempt(bookings, call.dateISO, call.time)
    ensures call.AttemptToBookSlot? ==> (r.1 == Outcome(true) <==> call.time !in BookedOn(bookings, call.dateISO))
    ensures call.ResetBookedSlots? ==> r.0 == map[] && r.1 == Cleared
  {
    match call
    case GetBookedSlots(d) => (bookings, Slots(BookedOn(bookings, d)))
    case AttemptToBookSlot(d, t) =>
      (AfterAttempt(bookings, d, t), Outcome(t !in BookedOn(bookings, d)))
    case ResetBookedSlots => (map[], Cleared)
  }

  /** The final ledger and the replies of running `calls` in order from `bookings`. */
  function Replay(bookings: Bookings, calls: seq<Call>): (r: (Bookings, seq<Reply>))
    ensures |r.1| == |calls|
    decreases |calls|
  {
    if calls == [] then (bookings, [])
    else
      var (next, reply) := Step(bookings, calls[0]);
      var (last, replies) := Replay(next, calls[1..]);
      (last, [reply] + replies)
  }

  /** Without a reset, every date's list at the end of a run extends its list at the start. */
  lemma {:induction false} ReplayOnlyGrows(bookings: Bookings, calls: seq<Call>, dateISO: string)
    requires ResetFree(calls)
    ensures BookedOn(bookings, dateISO) <= BookedOn(Replay(bookings, calls).0, dateISO)
    decreases |calls|
  {
    if calls != [] {
      var next := Step(bookings, calls[0]).0;
      assert !calls[0].ResetBookedSlots?;
      assert BookedOn(bookings, dateISO) <= BookedOn(next, dateISO);
      forall k | 0 <= k < |calls[1..]| ensures !calls[1..][k].ResetBookedSlots? {
        assert calls[1..][k] == calls[k + 1];
      }
      ReplayOnlyGrows(next, calls[1..], dateISO);
      ReplayUnfold(bookings, calls);
      PrefixTransitive(BookedOn(bookings, dateISO), BookedOn(next, dateISO), BookedOn(Replay(bookings, calls).0, dateISO));
    }
  }

  lemma PrefixTransitive(a: seq<string>, b: seq<string>, c: seq<string>)
    requires a <= b && b <= c
    ensures a <= c
  {
    assert b == c[..|b|];
    assert a == b[..|a|] == c[..|a|];
  }

  /** Running two sequences of actions one after the other is running their concatenation. */
  lemma {:induction false} ReplayAppend(bookings: Bookings, first: seq<Call>, second: seq<Call>)
    ensures Replay(bookings, first + second).0 == Replay(Replay(bookings, first).0, second).0
    ensures Replay(bookings, first + second).1 == Replay(bookings, first).1 + Replay(Replay(bookings, first).0, second).1
    decreases |first|
  {
    if first == [] {
      assert first + second == second;
    } else {
      var whole := first + second;
      var next := Step(bookings, first[0]).0;
      var reply := Step(bookings, first[0]).1;
      assert whole[0] == first[0] && whole[1..] == first[1..] + second;
      ReplayUnfold(bookings, first);
      ReplayUnfold(bookings, whole);
      ReplayAppend(next, first[1..], second);
      var rest := Replay(next, first[1..]);
      var tail := Replay(rest.0, second).1;
      assert [reply] + (rest.1 + tail) == ([reply] + rest.1) + tail;
    }
  }

  /** The reply to action `k` of a run: the first action's own reply, or a reply of the rest of the run. */
  lemma ReplyAt(bookings: Bookings, calls: seq<Call>, k: nat)
    requires k < |calls|
    ensures k == 0 ==> Replay(bookings, calls).1[k] == Step(bookings, calls[0]).1
    ensures k > 0 ==> Replay(bookings, calls).1[k] == Replay(Step(bookings, calls[0]).0, calls[1..]).1[k - 1]
  {
    ReplayUnfold(bookings, calls);
  }

  lemma ReplayUnfold(bookings: Bookings, calls: seq<Call>)
    requires calls != []
    ensures Replay(bookings, calls) ==
      (Replay(Step(bookings, calls[0]).0, calls[1..]).0,
       [Step(bookings, calls[0]).1] + Replay(Step(bookings, calls[0]).0, calls[1..]).1)
  {
  }

  /** No reset among the calls. */
  ghost predicate ResetFree(calls: seq<Call>)
  {
    forall i | 0 <= i < |calls| :: !calls[i].ResetBookedSlots?
  }

  /** An attempt succeeds exactly when the time is free, and then appends it; otherwise nothing changes. */
  lemma AttemptOutcome(bookings: Bookings, dateISO: string, time: string)
    ensures var (next, reply) := Step(bookings, AttemptToBookSlot(dateISO, time));
      && reply == Outcome(time !in BookedOn(bookings, dateISO))
      && (reply.booked ==> BookedOn(next, dateISO) == BookedOn(bookings, dateISO) + [time])
      && (!reply.booked ==> next == bookings)
  {
  }

  /** An attempt leaves every other date's entry, and whether it has one, as it was. */
  lemma AttemptFrame(bookings: Bookings, dateISO: string, time: string)
    ensures forall d | d != dateISO ::
      (d in AfterAttempt(bookings, dateISO, time) <==> d in bookings)
      && BookedOn(AfterAttempt(bookings, dateISO, time), d) == BookedOn(bookings, d)
  {
  }

  /** An attempt keeps every date free of duplicates. */
  lemma AttemptKeepsNoDoubleBooking(bookings: Bookings, dateISO: string, time: string)
    requires NoDoubleBooking(bookings)
    ensures NoDoubleBooking(AfterAttempt(bookings, dateISO, time))
  {
  }

  /** Every action keeps every date free of duplicates. */
  lemma {:induction false} ReplayKeepsNoDoubleBooking(bookings: Bookings, calls: seq<Call>)
    requires NoDoubleBooking(bookings)
    ensures NoDoubleBooking(Replay(bookings, calls).0)
    decreases |calls|
  {
    if calls != [] {
      if calls[0].AttemptToBookSlot? {
        AttemptKeepsNoDoubleBooking(bookings, calls[0].dateISO, calls[0].time);
      }
      ReplayKeepsNoDoubleBooking(Step(bookings, calls[0]).0, calls[1..]);
    }
  }

  /**
   * Once `time` is booked on `dateISO`, every attempt to book it again is
   * refused until the first reset, and without a reset it stays booked.
   */
  lemma {:induction false} BookedStaysRefused(bookings: Bookings, calls: seq<Call>, dateISO: string, time: string)
    requires time in BookedOn(bookings, dateISO)
    ensures ResetFree(calls) ==> time in BookedOn(Replay(bookings, calls).0, dateISO)
    ensures forall i | 0 <= i < |calls| && calls[i] == AttemptToBookSlot(dateISO, time) && ResetFree(calls[..i]) ::
      Replay(bookings, calls).1[i] == Outcome(false)
    decreases |calls|
  {
    if calls != [] {
      var replies := Replay(bookings, calls).1;
      if calls[0].ResetBookedSlots? {
        forall i | 0 < i < |calls| ensures !ResetFree(calls[..i]) {
          assert calls[..i][0] == calls[0];
        }
        assert !ResetFree(calls);
      } else {
        var next := Step(bookings, calls[0]).0;
        assert time in BookedOn(next, dateISO);
        BookedStaysRefused(next, calls[1..], dateISO, time);
        assert ResetFree(calls) ==> ResetFree(calls[1..]) by {
          if ResetFree(calls) {
            forall k | 0 <= k < |calls[1..]| ensures !calls[1..][k].ResetBookedSlots? {
              assert calls[1..][k] == calls[k + 1];
            }
          }
        }
        forall i | 0 <= i < |calls| && calls[i] == AttemptToBookSlot(dateISO, time) && ResetFree(calls[..i])
          ensures replies[i] == Outcome(false)
        {
          ReplyAt(bookings, calls, i);
          if i > 0 {
            assert calls[1..][i - 1] == calls[i];
            var before := calls[1..][..i - 1];
            forall k | 0 <= k < |before| ensures !before[k].ResetBookedSlots? {
              assert before[k] == calls[..i][k + 1];
            }
          }
        }
      }
    }
  }

  /**
   * At most once: of two attempts to book the same date and time with no
   * reset between them, the later one never succeeds after the earlier
   * one did. Resets before the first or after the second do not matter.
   */
  lemma {:induction false} AtMostOnce(bookings: Bookings, calls: seq<Call>, i: nat, j: nat, dateISO: string, time: string)
    requires i < j < |calls|
    requires calls[i] == AttemptToBookSlot(dateISO, time) && calls[j] == AttemptToBookSlot(dateISO, time)
    requires forall k | i < k < j :: !calls[k].ResetBookedSlots?
    requires Replay(bookings, calls).1[i] == Outcome(true)
    ensures Replay(bookings, calls).1[j] == Outcome(false)
    decreases |calls|
  {
    if i == 0 {
      FirstSuccessThenRefused(bookings, calls, j, dateISO, time);
    } else {
      var next := Step(bookings, calls[0]).0;
      ReplyAt(bookings, calls, i);
      ReplyAt(bookings, calls, j);
      assert calls[1..][i - 1] == calls[i] && calls[1..][j - 1] == calls[j];
      forall k | i - 1 < k < j - 1 ensures !calls[1..][k].ResetBookedSlots? {
        assert calls[1..][k] == calls[k + 1];
      }
      AtMostOnce(next, calls[1..], i - 1, j - 1, dateISO, time);
    }
  }

  /** The base case of AtMostOnce: the first action of the run is the successful attempt. */
  lemma FirstSuccessThenRefused(bookings: Bookings, calls: seq<Call>, j: nat, dateISO: string, time: string)
    requires 0 < j < |calls|
    requires calls[0] == AttemptToBookSlot(dateISO, time) && calls[j] == AttemptToBookSlot(dateISO, time)
    requires forall k | 0 < k < j :: !calls[k].ResetBookedSlots?
    ensures Replay(bookings, calls).1[j] == Outcome(false)
  {
    var next := Step(bookings, calls[0]).0;
    assert time in BookedOn(next, dateISO);
    ReplyAt(bookings, calls, j);
    var rest := calls[1..];
    assert rest[j - 1] == calls[j];
    var between := rest[..j - 1];
    forall k | 0 <= k < |between| ensures !between[k].ResetBookedSlots? {
      assert between[k] == calls[k + 1];
    }
    assert ResetFree(between);
    BookedStaysRefused(next, rest, dateISO, time);
  }

  /** After a reset every date reads as having nothing booked, and a first attempt on any date succeeds. */
  lemma ResetClears(bookings: Bookings, dateISO: string, time: string)
    ensures var cleared := Step(bookings, ResetBookedSlots).0;
      && BookedOn(cleared, dateISO) == []
      && Step(cleared, AttemptToBookSlot(dateISO, time)).1 == Outcome(true)
  {
  }
}
