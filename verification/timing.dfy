/** The `PT` wrapper that prints an elapsed `Duration` in µs, ms or s
    (src/main.rs, `impl fmt::Display for PT`). */
module Timing {

  import opened Numeric
  import opened Decimal

  /** Rust's `Duration`: whole seconds plus a sub-second nanosecond part. */
  type Nanos = x: int | 0 <= x < 1_000_000_000

  datatype Duration = Duration(secs: U64, nanos: Nanos)

  const MICRO_UNIT: string := " \U{00B5}s"
  const MILLI_UNIT: string := " ms"
  const SECOND_UNIT: string := " s"

  predicate EndsWith(s: string, suffix: string) {
    |suffix| <= |s| && s[|s| - |suffix|..] == suffix
  }

  /** The text `PT` writes. Each ensures reads the text back: the unit at the
      end, and the value denoted by the digits before it, which have no
      leading zero (as `{}` prints them). */
  function Format(d: Duration): (s: string)
    ensures d.secs == 0 && d.nanos < 5_000_000 ==>
              EndsWith(s, MICRO_UNIT) && AllDigits(s[..|s| - 3])
              && Read(s[..|s| - 3]) == d.nanos / 1_000 < 5_000
              && |s| >= 4 && (|s| == 4 || s[0] != '0')
    ensures d.secs == 0 && d.nanos >= 5_000_000 ==>
              EndsWith(s, MILLI_UNIT) && AllDigits(s[..|s| - 3])
              && Read(s[..|s| - 3]) == d.nanos / 1_000_000
              && 5 <= d.nanos / 1_000_000 < 1_000
              && (|s| == 4 || s[0] != '0')
    ensures d.secs > 0 ==>
              |s| >= 7 && EndsWith(s, SECOND_UNIT) && s[|s| - 6] == '.'
              && AllDigits(s[..|s| - 6]) && Read(s[..|s| - 6]) == d.secs
              && AllDigits(s[|s| - 5..|s| - 2]) && Read(s[|s| - 5..|s| - 2]) == d.nanos / 1_000_000
              && (|s| == 7 || s[0] != '0')
  {
    if d.secs == 0 then
      if d.nanos < 5_000_000 then
        var digits := Show(d.nanos / 1_000);
        assert (digits + MICRO_UNIT)[..|digits|] == digits;
        digits + MICRO_UNIT
      else
        var digits := Show(d.nanos / 1_000_000);
        assert (digits + MILLI_UNIT)[..|digits|] == digits;
        digits + MILLI_UNIT
    else
      var whole := Show(d.secs);
      var millis := ZeroPad(d.nanos / 1_000_000, 3);
      ShowBelowThousand(d.nanos / 1_000_000);
      var s := whole + "." + millis + SECOND_UNIT;
      assert s[..|s| - 6] == whole;
      assert s[|s| - 5..|s| - 2] == millis;
      s
  }

  /** Zero padding of the millisecond field: 1.005 s prints as "1.005 s",
      never "1.5 s". */
  lemma PaddedMilliseconds()
    ensures Format(Duration(1, 5_000_000)) == "1.005 s"
  {
    var d := Duration(1, 5_000_000);
    assert d.nanos / 1_000_000 == 5;
    assert Show(1) == "1";
    assert Show(5) == "5";
    assert Zeros(2) == "00";
    assert ZeroPad(5, 3) == "005";
  }

  /** Just below the 5 ms switch-over the reading is still in microseconds. */
  lemma BelowSwitchOver()
    ensures Format(Duration(0, 4_999_999)) == "4999" + MICRO_UNIT
  {
    var d := Duration(0, 4_999_999);
    assert d.nanos / 1_000 == 4_999;
    assert Show(4) == "4";
    assert Show(49) == "49";
    assert Show(499) == "499";
  }

  /** At 5 ms the reading switches to milliseconds. */
  lemma AtSwitchOver()
    ensures Format(Duration(0, 5_000_000)) == "5 ms"
  {
    assert Show(5) == "5";
  }
}
