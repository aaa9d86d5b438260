# Prayer feed: hold-to-pray session machine and stats

This project models the logic inside `PrayerFeedApp` of the prayer-feed demo
(`src/App.jsx`): a single-screen app with a feed of prayer requests, a
personal journal and a wall of answered prayers. Pressing and holding the
pray button on a journal entry, or on a prayer card other than the user's own
request (those show "Post Update" and "Mark Answered" instead), starts a
timed prayer; releasing it stops the timer and, if at least one second was
counted, credits the dashboard statistics. The compose form posts new requests or
journal entries at the head of their list.

The model is functional: the whole screen state is one immutable `App`
value, and every user gesture or timer callback is an `Event` applied by a
pure `Step` function. `Run` applies a sequence of events.

- `wrappers.dfy` (`Wrappers`): `Option`, standing for JavaScript `null`.
- `decimal.dfy` (`Decimal`): decimal rendering of a natural number, as a
  template literal `${n}` does it, and the parser that reads it back.
- `format_time.dfy` (`Duration`): `formatTime`, which renders a minute count
  as `"Nm"` or `"Hh Mm"`, and an independent parser `ParseClock` of both
  label shapes.
- `stats.dfy` (`PrayerStats`): the `stats` record with its seed values,
  `Math.round(s / 60)` on whole seconds, and the update one finished session
  applies.
- `js_text.dfy` (`JsText`): `String.prototype.trim` over ECMAScript's
  white-space and line-terminator characters, and the "has text" test of the
  compose form's submit button.
- `entries.dfy` (`Entries`): prayer requests, journal entries, the compose
  form, the new entries it creates, and the feed (unanswered) and wall
  (answered) views.
- `prayer_app.dfy` (`PrayerApp`): the screen state, `startPray`, the
  one-second tick, `stopPray`, `handleSubmit`, the submit guard, the notice
  expiry, and the lemmas about runs of events.
- `scenarios.dfy` (`Scenarios`): concrete runs from the seed statistics.

Three details of the code shape the model:

- `startPray` refuses a second start by testing whether the interval handle
  is set (`intRef.current`), not whether a target is set. The model keeps a
  separate `ticking` flag and proves that in every reachable state it is set
  exactly when a target is (`PrayerApp.Inv`).
- Ids are JavaScript numbers, and `stopPray` tests `prayingId && dur > 0`. A
  target whose id is `0` is falsy and would not be credited. No id in the app
  is zero, but the model keeps the test as written (`PrayerApp.Credits`).
- Submitting a request or journal entry never touches the "needs" counters;
  only a timed session changes the statistics.

## Model

| member | source | states |
|---|---|---|
| Decimal.NatToString | src/App.jsx:31 | a rendered number is a non-empty digit string with no leading zero except for zero itself |
| Decimal.DigitsValueOfNatToString | src/App.jsx:31 | reading a rendered number back as decimal digits gives the number |
| Decimal.NatToStringOfNumeral | src/App.jsx:31 | rendering the value of a numeral without leading zeros gives that numeral back, so `${n}` is the only way `n` is written |
| Decimal.NatToStringInjective | src/App.jsx:31 | distinct numbers render differently |
| Duration.FormatTime | src/App.jsx:31 | a label always ends in `m` and contains `h` exactly when the count is an hour or more |
| Duration.FormatTimeRoundTrip | src/App.jsx:31 | every label parses back, its numerals written without leading zeros, to hours and minutes whose total is the count, with fewer than 60 minutes left over, and with zero hours exactly when the count is under 60 |
| Duration.ParseClockThenFormat | src/App.jsx:31 | a label that parses to hours and fewer than 60 minutes, showing hours exactly when they are nonzero, is exactly the label of its total, character for character |
| Duration.ParseHoursThenFormat | src/App.jsx:31 | text reading as `<h>h <r>` with `h` nonzero and `r` below 60, followed by `m`, is exactly the label of its total |
| Duration.MinutesLabel | src/App.jsx:31 | a numeral below 60 followed by `m` is the label of its value |
| Duration.HoursLabel | src/App.jsx:31 | `<h>h <r>m` with `h` at least 1 and `r` below 60 is the label of `h` hours and `r` minutes |
| Duration.FormatTimeInjective | src/App.jsx:31 | distinct minute counts get distinct labels |
| PrayerStats.RoundedMinutes | src/App.jsx:487 | `Math.round(s / 60)` is the whole number within half a minute of `s` seconds, halves rounding up |
| PrayerStats.RoundedMinutesUnique | src/App.jsx:487 | only one whole number meets that rounding condition |
| PrayerStats.CreditedMinutes | src/App.jsx:487 | a session credits at least one minute, exactly one under 30 seconds, and the rounded minutes from 30 seconds on |
| PrayerStats.CreditedMinutesExamples | src/App.jsx:487 | 125 s credit 2 minutes, 29 s credit 1, 90 s credit 2, 1 s credits 1 |
| JsText.LeadingSpace | src/App.jsx:389 | the count of leading characters `trim` strips is the longest all-space prefix |
| JsText.TrailingSpace | src/App.jsx:389 | the count of trailing characters `trim` strips is the longest all-space suffix |
| JsText.Trim | src/App.jsx:389 | a trimmed text is a slice of the text that drops only white space before and after it, and is empty or starts and ends with a non-space |
| JsText.HasContentIffNonSpace | src/App.jsx:389 | the submit button submits exactly when the text holds a character that is not white space |
| JsText.TrimIdempotent | src/App.jsx:389 | trimming twice equals trimming once |
| Entries.NewPrayer | src/App.jsx:500 | a new request is the user's own, unanswered, with no prayers or minutes yet, anonymous exactly when the name is kept private, authored "A Church Member" then and "You" otherwise, posted "Just now" on day 1 |
| Entries.NewJournalEntry | src/App.jsx:498 | a new journal entry carries the form's text and category under the given id and is unanswered, created "Just now" |
| Entries.Select | src/App.jsx:577 | a view holds exactly the prayers with the given answered flag |
| Entries.SelectAppend | src/App.jsx:577 | a view keeps list order: the view of a concatenation is the concatenation of the views |
| Entries.Feed | src/App.jsx:577 | the feed holds exactly the unanswered prayers |
| Entries.Wall | src/App.jsx:653 | the wall holds exactly the answered prayers |
| Entries.FeedWallPartition | src/App.jsx:645-653 | every prayer shows on exactly one of feed and wall, and the two views together hold the list's prayers with their multiplicities |
| Entries.PrependSelect | src/App.jsx:577 | a prayer put at the head of the list heads the view it belongs to and leaves the other view unchanged |
| PrayerStats.RecordSession | src/App.jsx:487 | a recorded session adds one prayer to week and month and the same credited minutes, at least one, to week and month; needs and goals stay and no counter drops |
| PrayerApp.Boot | src/App.jsx:465-474 | the screen starts idle with no notice, the seed statistics and the given lists, in a state meeting the invariant |
| PrayerApp.StartPray | src/App.jsx:477-481 | after a start the interval runs; a start while it runs changes nothing; otherwise the target is the id with elapsed zero; statistics, notice and lists stay |
| PrayerApp.TickSecond | src/App.jsx:480 | a tick changes only the elapsed time, adding one second exactly when the interval runs |
| PrayerApp.Credits | src/App.jsx:485 | the stop's credit test: a target with a nonzero id and some elapsed time (contract stated by `PrayerApp.StopCreditsSession`) |
| PrayerApp.RecordedNotice | src/App.jsx:488 | the notice reads "Prayer recorded · ", then the elapsed seconds as a numeral, then `s` |
| PrayerApp.RecordedNoticeInjective | src/App.jsx:488 | notices for different session lengths differ, so the notice reports the exact seconds |
| PrayerApp.Step | src/App.jsx:477-505 | the events wired to the pray button's press and release handlers, the interval callback and the notice timeouts: only a stop changes the statistics, only a submit changes the lists, and the notice timeout clears the notice and nothing else |
| PrayerApp.StopPray | src/App.jsx:483-492 | after a stop the machine is idle; the session is recorded and announced when it credits, else statistics and notice stay; lists stay |
| PrayerApp.HandleSubmit | src/App.jsx:496-505 | a submit puts one new entry at the head of the chosen list, leaves the other list, the session and the statistics, and posts a notice |
| PrayerApp.SubmitPressed | src/App.jsx:389 | the button changes the state exactly when the trimmed text is non-empty |
| PrayerApp.StepPreservesInv | src/App.jsx:477-492 | no event breaks "the interval runs exactly while a target is set, and elapsed time is zero without one" |
| PrayerApp.RunPreservesInv | src/App.jsx:477-492 | no sequence of events breaks that invariant |
| PrayerApp.StartWhileActiveIsNoOp | src/App.jsx:478 | starting while a session runs leaves the whole state, target and elapsed time included, unchanged |
| PrayerApp.StartFromIdle | src/App.jsx:479-480 | starting from idle targets the given id with elapsed zero and the interval running, and changes nothing else |
| PrayerApp.TickAddsOneSecond | src/App.jsx:480 | during a session a tick adds exactly one second and nothing else; without one it changes nothing |
| PrayerApp.TicksAccumulate | src/App.jsx:480 | during a session `n` ticks add exactly `n` seconds and nothing else |
| PrayerApp.StopCreditsSession | src/App.jsx:485-488 | stopping a counting session adds one prayer to week and month, the same credited minutes (at least one) to week and month, keeps needs and goals, posts the "Prayer recorded" notice, and keeps both lists |
| PrayerApp.StopWithoutCreditKeepsStats | src/App.jsx:485 | stopping with zero elapsed time, no target or a falsy id leaves every statistic and the notice as they were |
| PrayerApp.StopThenStart | src/App.jsx:483-492 | after any stop the machine is idle, and a following start targets the new id counting from zero |
| PrayerApp.StepStatsGrow | src/App.jsx:487 | one event never lowers a counter, adds as many prayers and minutes to the week as to the month, at least one minute per prayer, and never changes needs or goals |
| PrayerApp.RunStatsGrow | src/App.jsx:474-492 | the same holds across any sequence of events |
| PrayerApp.SubmitPrependsOne | src/App.jsx:496-503 | a blank submit changes nothing; otherwise exactly one entry goes to the head of the chosen list, the old entries follow in order, and the other list, the session and the statistics stay |
| PrayerApp.SubmitFeedsFeed | src/App.jsx:500 | a posted request heads the feed, the wall is unchanged, and each prayer still shows on exactly one of them |
| Scenarios.LongPrayer | src/App.jsx:477-492 | from the seed statistics, holding for 125 seconds takes the week to 13 prayers and 36 minutes and the month to 39 and 109, and ends idle |
| Scenarios.ImmediateRelease | src/App.jsx:485 | a press released before any tick leaves the seed statistics unchanged |
| Scenarios.SecondStartIgnored | src/App.jsx:478 | a second press during a session keeps the first target |

## Left out

- Rendering, inline styles, animations, the SVG `Ring` and the progress ratios `stats.pw / stats.gp` and so on: display only, and floating point.
- The flags `tab`, `showCompose`, `showDash`, `journalView` and `promptText`, including their reset at the end of `handleSubmit`: presentational state.
- Real time: the interval and the timeouts are explicit events (`Tick`, `NoticeExpired`) rather than clocks. A notice's timeout clears whatever notice is showing when it fires; the model lets that happen at any moment.
- React hook semantics: the closure `stopPray` captures, and the interval cleared on unmount. Every event is one atomic transition on the current state.
- `Date.now()` ids: the new entry's id is a parameter of the submit event.
- The seed arrays of prayers, journal entries, prompts and category colours: the initial lists are parameters of `Boot`.
- Which card a gesture comes from, and the `isPraying` highlight: the target id is a parameter of the start event.
- JavaScript numbers are 64-bit floats: `dur` and the statistics are exact only up to 2^53, and `s / 60` is a floating-point division. The model uses unbounded naturals and exact rounding; no counter comes near that bound.
- JavaScript strings are sequences of UTF-16 code units and `trim` works on code units. The model's characters are Unicode scalar values, so a lone surrogate cannot be written; every character `trim` strips is a single code unit, so strings without lone surrogates trim alike.
- Decimal.NatToString: renders every natural number in plain digits; JavaScript switches to exponent notation from 10^21 on, which the minute counters never reach.
