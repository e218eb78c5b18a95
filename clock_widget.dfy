/** The clock component's state: the last sampled instant, the display
    format and the mounted flag, with the operations that change them (the
    mount effect, the one-second tick, the two format buttons and the
    effect's cleanup). The repeating timer is the flag `active`: set by the
    mount effect, cleared by the cleanup, and the only thing that lets a
    tick through. */
module DigitalClock {
  import opened ClockFormat

  /** The parts of a `Date` the clock reads: `getHours()`, `getMinutes()`
      and `getSeconds()`. */
  datatype Instant = Instant(hours: int, minutes: int, seconds: int)

  predicate ValidInstant(t: Instant) {
    ValidTime(t.hours, t.minutes, t.seconds)
  }

  class ClockWidget {
    var time: Instant
    var is24Hour: bool
    var mounted: bool
    var active: bool

    /** The sampled instant is a real time of day, and the timer only runs
        once the component has mounted. */
    predicate Valid()
      reads this
    {
      ValidInstant(time) && (active ==> mounted)
    }

    /** A fresh component: `t` is the instant sampled when its state is
        created, the format is 24-hour, and it is not yet mounted. */
    constructor (t: Instant)
      requires ValidInstant(t)
      ensures Valid()
      ensures time == t && is24Hour && !mounted && !active
    {
      time := t;
      is24Hour := true;
      mounted := false;
      active := false;
    }

    /** The mount effect: marks the component mounted and starts the timer.
        It does not sample the clock; the time stays as it was. */
    method Mount()
      requires Valid()
      modifies this
      ensures Valid()
      ensures mounted && active
      ensures time == old(time) && is24Hour == old(is24Hour)
    {
      mounted := true;
      active := true;
    }

    /** One timer tick: while the timer runs, `time` becomes the freshly
        sampled instant `t`; after cleanup nothing changes. */
    method Tick(t: Instant)
      requires Valid() && ValidInstant(t)
      modifies this
      ensures Valid()
      ensures time == (if old(active) then t else old(time))
      ensures is24Hour == old(is24Hour) && mounted == old(mounted) && active == old(active)
    {
      if active {
        time := t;
      }
    }

    /** A format button: sets the 24-hour flag to `b` and nothing else. The
        new state does not depend on the old flag, so pressing the same
        button again changes nothing. */
    method SelectFormat(b: bool)
      requires Valid()
      modifies this
      ensures Valid()
      ensures is24Hour == b
      ensures time == old(time) && mounted == old(mounted) && active == old(active)
    {
      is24Hour := b;
    }

    /** The effect's cleanup: stops the timer. The component stays mounted;
        nothing sets `mounted` back to false. */
    method Unmount()
      requires Valid()
      modifies this
      ensures Valid()
      ensures !active
      ensures time == old(time) && is24Hour == old(is24Hour) && mounted == old(mounted)
    {
      active := false;
    }

    /** The string the component renders: empty before mount, and after
        mount `HH:MM:SS` whose fields read back as the displayed hour of
        the sampled instant and its minute and second. */
    function FormattedTime(): (r: string)
      reads this
      requires Valid()
      ensures !mounted ==> r == ""
      ensures mounted ==> (WellFormed(r) &&
        ParseTime(r) == Some((DisplayHour(time.hours, is24Hour), time.minutes, time.seconds)))
    {
      FormatSpec(time.hours, time.minutes, time.seconds, is24Hour, mounted);
      Format(time.hours, time.minutes, time.seconds, is24Hour, mounted)
    }
  }

  /** A component mounted at midnight shows "00:00:00", or "12:00:00" in
      12-hour mode; pressing the same button twice is the same as pressing
      it once; a tick one second later shows "00:00:01"; after cleanup a
      further tick changes nothing. */
  method MidnightScenario()
  {
    var clock := new ClockWidget(Instant(0, 0, 0));
    assert clock.FormattedTime() == "";
    clock.Mount();
    assert clock.FormattedTime() == "00:00:00";
    clock.SelectFormat(false);
    assert clock.FormattedTime() == "12:00:00";
    clock.SelectFormat(false);
    assert !clock.is24Hour && clock.FormattedTime() == "12:00:00";
    clock.SelectFormat(true);
    clock.Tick(Instant(0, 0, 1));
    assert clock.FormattedTime() == "00:00:01";
    clock.Unmount();
    clock.Tick(Instant(0, 0, 2));
    assert clock.time == Instant(0, 0, 1) && clock.mounted;
  }
}
