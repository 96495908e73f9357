/**
 * The time-of-day check of the availability form: the pattern
 * `^([01]\d|2[0-3]):([0-5]\d)$`, in which `\d` is an ASCII digit and the
 * anchors leave no room for anything before or after the five characters.
 */
module TimeFormat {
  import LexOrder

  predicate IsDigit(c: char)
  {
    '0' <= c <= '9'
  }

  /** The pattern test, one alternative of the hour group at a time. */
  predicate IsValidTime(s: string)
    ensures IsValidTime(s) ==> |s| == 5 && s[2] == ':'
    ensures IsValidTime(s) ==> IsDigit(s[0]) && IsDigit(s[1]) && IsDigit(s[3]) && IsDigit(s[4])
    ensures IsValidTime(s) ==> s[0] <= '2' && s[3] <= '5'
  {
    && |s| == 5
    && (((s[0] == '0' || s[0] == '1') && IsDigit(s[1])) || (s[0] == '2' && '0' <= s[1] <= '3'))
    && s[2] == ':'
    && '0' <= s[3] <= '5'
    && IsDigit(s[4])
  }

  function Digit(n: nat): (c: char)
    requires n < 10
    ensures IsDigit(c)
  {
    ('0' as int + n) as char
  }

  function DigitValue(c: char): (n: nat)
    requires IsDigit(c)
    ensures n < 10 && Digit(n) == c
  {
    c as int - '0' as int
  }

  /** The `HH:MM` text of hour `h` and minute `m`, both zero-padded to two digits. */
  function Format(h: nat, m: nat): (s: string)
    requires h < 24 && m < 60
  {
    [Digit(h / 10), Digit(h % 10), ':', Digit(m / 10), Digit(m % 10)]
  }

  function Hour(s: string): (h: nat)
    requires IsValidTime(s)
    ensures h < 24
  {
    DigitValue(s[0]) * 10 + DigitValue(s[1])
  }

  function Minute(s: string): (m: nat)
    requires IsValidTime(s)
    ensures m < 60
  {
    DigitValue(s[3]) * 10 + DigitValue(s[4])
  }

  /** Minutes since midnight of a valid time. */
  function MinuteOfDay(s: string): (n: nat)
    requires IsValidTime(s)
    ensures n < 24 * 60
  {
    Hour(s) * 60 + Minute(s)
  }

  /** Every formatted hour and minute passes the check and reads back as itself. */
  lemma FormatParses(h: nat, m: nat)
    requires h < 24 && m < 60
    ensures IsValidTime(Format(h, m))
    ensures Hour(Format(h, m)) == h && Minute(Format(h, m)) == m
  {
  }

  /** Every string that passes the check is the formatted text of its own hour and minute. */
  lemma ParseFormats(s: string)
    requires IsValidTime(s)
    ensures Format(Hour(s), Minute(s)) == s
  {
  }

  /** The check accepts exactly the texts of the times 00:00 to 23:59. */
  lemma ValidTimeIffFormatted(s: string)
    ensures IsValidTime(s) <==> exists h: nat, m: nat :: h < 24 && m < 60 && s == Format(h, m)
  {
    if IsValidTime(s) {
      ParseFormats(s);
    }
    if exists h: nat, m: nat :: h < 24 && m < 60 && s == Format(h, m) {
      var h: nat, m: nat :| h < 24 && m < 60 && s == Format(h, m);
      FormatParses(h, m);
    }
  }

  /** On valid times the default string order is the chronological order. */
  lemma BelowIsChronological(a: string, b: string)
    requires IsValidTime(a) && IsValidTime(b)
    ensures LexOrder.Below(a, b) <==> MinuteOfDay(a) <= MinuteOfDay(b)
  {
    if a[0] == b[0] {
      assert LexOrder.Below(a, b) == LexOrder.Below(a[1..], b[1..]);
      if a[1] == b[1] {
        assert LexOrder.Below(a[1..], b[1..]) == LexOrder.Below(a[2..], b[2..]);
        assert LexOrder.Below(a[2..], b[2..]) == LexOrder.Below(a[3..], b[3..]);
        if a[3] == b[3] {
          assert LexOrder.Below(a[3..], b[3..]) == LexOrder.Below(a[4..], b[4..]);
          assert a[5..] == [] && b[5..] == [];
          assert LexOrder.Below(a[4..], b[4..]) == (a[4] <= b[4]);
        } else {
          assert LexOrder.Below(a[3..], b[3..]) == (a[3] < b[3]);
        }
      } else {
        assert LexOrder.Below(a[1..], b[1..]) == (a[1] < b[1]);
      }
    } else {
      assert LexOrder.Below(a, b) == (a[0] < b[0]);
    }
  }
}
