# Digital clock — a verified model

The repository is one React component, `DigitalClockComponent`
(`components/digital-clock.tsx`), that shows the current time as `HH:MM:SS` and
has two buttons to switch between 24-hour and 12-hour display. This project models
its two pieces of logic in Dafny:

- **The formatter** (the `useMemo` callback). It is a pure function of the sampled hour, minute and second, the 24-hour flag and the mounted flag. Module `ClockFormat` in `clock_format.dfy` holds it.
  - Before mount it returns `""`.
  - After mount it converts the hour to 12-hour form when asked (`h % 12 || 12`).
  - It pads each field with `toString().padStart(2, "0")` and joins the fields with `:`.
  - The two JavaScript built-ins it uses, `Number.prototype.toString()` and `String.prototype.padStart`, are modelled in module `NumberText` (`number_text.dfy`).
  - `ParseDecimal` and `ParseTime` read the output back. They are the partners that the read-back lemmas are stated with.
- **The component state** (`time`, `is24Hour`, `mounted`). Class `DigitalClock.ClockWidget` in `clock_widget.dfy` holds it, with one method per state-changing event:
  - the mount effect (`Mount`);
  - the interval callback (`Tick`);
  - the two format buttons (`SelectFormat`);
  - the effect's cleanup (`Unmount`).
  - The interval is the boolean field `active`.
  - `FormattedTime` applies the formatter to the current state.
  - `MidnightScenario` walks through mount at midnight, a format switch, a tick and cleanup, and asserts each displayed string.

`Mount` does not sample the clock: the mount effect (lines 18-24) only sets
`mounted` and starts the interval. The first instant shown after mount is the one
sampled when the state was created (line 13), which the constructor takes as a
parameter; `Mount` leaves `time` unchanged.

## Model

| member | source | states |
|---|---|---|
| `NumberText.NatToString` | components/digital-clock.tsx:30-33 | Definition of `n.toString()` for non-negative integers; its properties are `NatToStringDigits`, `ParseNatToString` and `NatToStringInjective`. |
| `NumberText.PadStart` | components/digital-clock.tsx:30-33 | Definition of `padStart(width, pad)` with a one-character pad; its properties are `PadStartShape`. |
| `NumberText.Pad2` | components/digital-clock.tsx:30-33 | Definition of `toString().padStart(2, "0")`; its properties are `Pad2Field` and `Pad2Wide`. |
| `NumberText.NatToStringDigits` | components/digital-clock.tsx:30-33 | `n.toString()` is a non-empty string of decimal digits. It is one digit long exactly when `n < 10`, and it has no leading zero unless `n` is 0. |
| `NumberText.ParseNatToString` | components/digital-clock.tsx:30-33 | Reading `n.toString()` back as a decimal number gives `n`, for every `n`. |
| `NumberText.NatToStringInjective` | components/digital-clock.tsx:30-33 | Distinct numbers have distinct `toString()` texts. |
| `NumberText.PadStartShape` | components/digital-clock.tsx:30-33 | `padStart(width, pad)` returns a string as long as the longer of `s` and `width`. It ends with `s` unchanged (it never truncates), and every character before `s` is the pad. |
| `NumberText.Pad2Field` | components/digital-clock.tsx:30-33 | For 0..99, `toString().padStart(2, "0")` is exactly the tens digit followed by the units digit. The field is all digits, and reading it back gives the number. |
| `NumberText.Pad2Wide` | components/digital-clock.tsx:30-33 | From 10 on, padding adds nothing. From 100 on, the field is longer than two characters. |
| `ClockFormat.DisplayHour` | components/digital-clock.tsx:29-31 | In 24-hour mode the shown hour is the raw hour. In 12-hour mode it lies in 1..12 and is congruent to the raw hour modulo 12. |
| `ClockFormat.DisplayHourHalfDay` | components/digital-clock.tsx:29-31 | Two hours share a 12-hour display if and only if they are equal modulo 12. Two hours share a 24-hour display if and only if they are equal. |
| `ClockFormat.Format` | components/digital-clock.tsx:27-35 | The formatter: the output is empty if and only if the component is not mounted, and after mount it is two digits, colon, two digits, colon, two digits. Its read-back is `FormatFields`/`FormatSpec`, its uniqueness `FormatUnique`. |
| `ClockFormat.ParseTime` | components/digital-clock.tsx:34 | Reading back the `${hours}:${minutes}:${seconds}` shape succeeds exactly on strings of the form two digits, colon, two digits, colon, two digits. Each field it returns lies in 0..99. |
| `ClockFormat.JoinFields` | components/digital-clock.tsx:34 | Joining three two-digit fields with `:` gives a well-formed string. Each field can be sliced back out of it and read as its value. |
| `ClockFormat.FormatFields` | components/digital-clock.tsx:29-34 | After mount the output has length 8, colons at indices 2 and 5 and digits elsewhere. Its slices are the three padded fields, and they read back as (displayed hour, minute, second). |
| `ClockFormat.FormatSpec` | components/digital-clock.tsx:27-35 | The output is empty if and only if the component is not mounted, whatever the time and format. When mounted, it is well formed and reads back as (displayed hour, minute, second). |
| `ClockFormat.FormatUnique` | components/digital-clock.tsx:29-34 | The formatted string is the only well-formed string that reads back as (displayed hour, minute, second), so the read-back determines the output completely. |
| `ClockFormat.Format24HourReadBack` | components/digital-clock.tsx:29-33 | In 24-hour mode, reading the output back gives exactly `(getHours(), getMinutes(), getSeconds())`. |
| `ClockFormat.Format12HourReadBack` | components/digital-clock.tsx:31-33 | In 12-hour mode, the hour field reads back in 1..12 and congruent to the hour modulo 12. Minutes and seconds read back unchanged. |
| `ClockFormat.TwelveHourHalves` | components/digital-clock.tsx:31 | In 12-hour mode, hours `h` and `h + 12` give the same string. The hour field reads 12 for hour 0 and `h` otherwise, and it is the text "12" exactly for hours 0 and 12. |
| `ClockFormat.TwelveHourExamples` | components/digital-clock.tsx:31 | In 12-hour mode hour 0 shows "12", hour 12 shows "12" and hour 13 shows "01". |
| `ClockFormat.FlagOnlyAffectsHour` | components/digital-clock.tsx:29-34 | Everything from the first colon on, i.e. minutes and seconds, is the same in both display modes. |
| `ClockFormat.Format24HourInjective` | components/digital-clock.tsx:29-34 | In 24-hour mode, distinct times of day give distinct strings. |
| `DigitalClock.ClockWidget.constructor` | components/digital-clock.tsx:13-15 | Initial state: `time` is the instant sampled at creation, `is24Hour` is true, `mounted` is false and no timer runs. |
| `DigitalClock.ClockWidget.Mount` | components/digital-clock.tsx:18-22 | Mounting sets `mounted` and starts the timer. `time` and the format are unchanged. |
| `DigitalClock.ClockWidget.Tick` | components/digital-clock.tsx:20-22 | While the timer runs, a tick replaces `time` with the fresh instant. Otherwise it changes nothing. The format, `mounted` and the timer are never touched. |
| `DigitalClock.ClockWidget.SelectFormat` | components/digital-clock.tsx:57-64 | A format button sets `is24Hour` to its constant, whatever the old value, so repeating it is idempotent. `time`, `mounted` and the timer are unchanged. |
| `DigitalClock.ClockWidget.Unmount` | components/digital-clock.tsx:23 | Cleanup stops the timer, so any later `Tick` changes nothing. `time`, the format and `mounted` are unchanged. |
| `DigitalClock.ClockWidget.FormattedTime` | components/digital-clock.tsx:27-35 | The rendered string is empty before mount. After mount it is well formed and reads back as the displayed hour, minute and second of the current state. |

Every method keeps `Valid()`: the sampled instant is a real time of day, and the
timer runs only once the component is mounted. No method sets `mounted` back to
false. Every `ensures` of every method says `mounted` is either set to true or left
unchanged.

## Left out

- JSX rendering, CSS classes and the `Card`/`Button` library components (lines 38-73) are presentation and foreign code. Only the two button handlers are modelled.
- `setInterval`/`clearInterval` and the 1000 ms period are real-time scheduling. They are modelled only as the `active` flag that `Mount` sets and `Unmount` clears. Which ticks happen, and when, is up to the caller.
- `new Date()` and the local-time semantics of `getHours`/`getMinutes`/`getSeconds` are clock reads. The model takes the hour, minute and second as integers in 0..23, 0..59 and 0..59.
- `useMemo` caching and React's scheduling of effects and renders are not modelled. The memoised value always equals the formatter applied to the current state, which is what `FormattedTime` computes.
- `padStart` is modelled only with a one-character pad string, the only form the component uses (`"0"`).
- `toString()` is modelled only for non-negative integers in base 10, the only values the component converts.
