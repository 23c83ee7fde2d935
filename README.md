# Pomodoro busylight timer — a Dafny model

The timer takes a user through work and break intervals. A busylight
shows the current state. It has two front ends built on the same idea:

- an event-driven terminal UI (`app.tsx`). A strict state machine is
  driven by menu choices. An internal `FINISHED` event is sent once the
  interval's progress reaches 0.
- a prompt-driven CLI (`app.ts`). Waiting states ask the user for the
  next state. Timed states poll with `TICK` and move on once the
  duration has passed.

Neither front end imports `lib.ts`. It is a copy of the helpers that
`app.tsx` defines for itself (the progress calculator, `pad` and
`formatMillis`), with three differences: its `pad` returns a number too
wide for the size in full, its minute is fixed at 60 seconds, and it
adds `formatTime` (`HH:MM`). The progress calculator maps a state, a
context and the current time to the remaining milliseconds and the
fraction still to go. The model takes the minute length as a parameter,
so one definition stands for the `lib.ts` copy and the `app.tsx` copy.
`app.ts` uses none of these helpers: its `TICK` guard does its own
comparison of the elapsed time with the duration.

Modules:

- `Decimal` (decimal.dfy): decimal digit strings. `Digits` is the
  plain-digit rendering of a non-negative integer; `Value` is what a digit string
  denotes.
- `Phases` (phases.dfy): the six states and the busylight signals.
- `Lib` (lib.dfy): `lib.ts`, plus the `State` record (state and context) that both machines share.
- `EventTimer` (event_timer.dfy): `app.tsx`. It holds the transition
  table as data, `Step`, the menu, the `FINISHED` trigger, the light
  table, the unguarded `pad`/`formatMillis` copies, and a `Timer` class
  with `Send` and `Refresh`.
- `PromptTimer` (prompt_timer.dfy): `app.ts`. It holds the prompt lists,
  the `createOnDone` guard choice, the `TICK` guard, the transition
  function, the light table, and a `Timer` class with `Send`.

The current time is a parameter (integer milliseconds), and so is the
debug switch, which picks the minute length and the work duration.

The `app.tsx` table is reproduced as written. `break` + `FINISHED` goes
to `workFinished`, so `breakFinished` can never be entered there.
`EventTimer.BreakFinishedUnreachable` proves this. In `app.ts`,
`break` finishes into `breakFinished`, and
`PromptTimer.BreakFinishedReachable` proves that.

The start time and the busylight behave as follows in both front ends:

- Entering `work` or `break` runs `setStartTime`, which always
  overwrites the start time with the current time (app.tsx:108-110,
  app.ts:166-168). An earlier start time is not kept.
- No action clears the start time. After `STOP` or a finished interval
  it keeps the value of the latest entry into a timed state.
- `workFinished` pulses green and `breakFinished` pulses red
  (app.tsx:57-62 with 98-101, app.tsx:72-77 with 90-93, and the same
  activities at app.ts:148-159).

## Model

| member | source | states |
|---|---|---|
| `Decimal.Digits` | lib.ts:8 | the rendering of a number is a digit string that denotes it, with no leading zero |
| `Decimal.DigitsFit` | lib.ts:5 | a number is below 10^k exactly when its rendering has at most k characters |
| `Decimal.ValueIgnoresLeadingZeros` | lib.ts:8 | the zero prefix does not change the number a padded string denotes |
| `Decimal.ValueOfSuffix` | lib.ts:9 | the last k characters of a digit string denote its value modulo 10^k |
| `Lib.Substr` | lib.ts:9 | one-argument `substr` returns a suffix of the string: a start ≥ 0 drops that many characters (all when past the end), a negative start keeps that many from the end (the whole string when it asks for more) |
| `Lib.Pad` | lib.ts:4-10 | the result is all digits; its meaning is given by `Lib.PadFits` and `Lib.PadOverflows` |
| `Lib.PadFits` | lib.ts:8-9 | for 1 ≤ size ≤ 10 and num < 10^size, `pad` gives num left-padded with zeros: exactly `size` digits denoting num |
| `Lib.PadOverflows` | lib.ts:5-7 | for num ≥ 10^size, `pad` returns num in full, more than `size` digits and no truncation |
| `Lib.MinutesAndSeconds` | lib.ts:13-15 | the seconds shown are below 60, and minutes·60000 + seconds·1000 ≤ millis < that + 1000 |
| `Lib.FormatMillisShort` | lib.ts:12-16 | under 100 minutes `formatMillis` gives 5 characters, ':' at index 2, digits denoting the minutes and the seconds |
| `Lib.FormatMillis` | lib.ts:12-16 | no contract of its own; specified by `Lib.MinutesAndSeconds`, `Lib.FormatMillisShort` and `Lib.FormatMillisLong` |
| `Lib.FormatMillisLong` | lib.ts:12-16 | from 100 minutes on, the minutes are printed in full before `:SS` |
| `Lib.FormatTime` | lib.ts:19-21 | no contract of its own; specified by `Lib.FormatTimeLayout` and `Lib.FormatTimeExample` |
| `Lib.FormatTimeLayout` | lib.ts:19-21 | for hour < 24 and minute < 60, `formatTime` gives 5 characters `HH:MM` denoting the hour and the minute |
| `Lib.FormatTimeExample` | lib.spec.ts:4-6 | 9:09 is rendered "09:09" |
| `Lib.GetProgress` | lib.ts:29-51 | progress is defined exactly in "work"/"break" with a start time; millis is the interval length minus the elapsed time; percent is max(millis / interval length, 0), so it is ≥ 0, ≤ 1 once started, and 0 exactly when the duration has elapsed, i.e. when millis ≤ 0 |
| `Lib.ElapsedRatio` | lib.ts:42-45 | the elapsed share of the interval reaches 1 exactly when elapsed ms ≥ duration·minute, and 1 minus that share is the remaining ms over the interval length |
| `Lib.ProgressDrains` | lib.ts:41-45 | millis starts at the full interval, falls by exactly the time passed (strictly decreasing in now), and percent never grows |
| `Phases.TimedByName` | app.tsx:138-139 | the names "work"/"break" are exactly those of the timed states |
| `EventTimer.ParseEvent` | app.tsx:38 | strict mode: a name is accepted exactly when it is one of the five declared event types |
| `EventTimer.Table` | app.tsx:40-82 | each state's `on` block has at most one entry per event type, and only `exit` has none |
| `EventTimer.Lookup` | app.tsx:40-82 | an event has a target exactly when the state's `on` block has an entry for it, and the target is that entry's |
| `EventTimer.Step` | app.tsx:40-82 | an event is refused exactly when the state's `on` block has no entry for it; otherwise the entry for it names the target |
| `EventTimer.EventsOf` | app.tsx:201 | `nextEvents` lists the event of each entry, in order |
| `EventTimer.NextEvents` | app.tsx:201 | no contract of its own; specified by `EventTimer.EventsOf` |
| `EventTimer.Without` | app.tsx:252 | the filter keeps exactly the events other than the one removed, and no more than it is given |
| `EventTimer.WithoutConcat` | app.tsx:252 | filtering a concatenation is the concatenation of the filtered parts, so the kept events stay in their order |
| `EventTimer.WithoutSingle` | app.tsx:252 | a single event is kept exactly when it is not the one removed |
| `EventTimer.MenuItems` | app.tsx:250-256 | no contract of its own; specified by `EventTimer.MenuOffersLegalEvents`, `EventTimer.MenuExamples` and `EventTimer.WithoutConcat` |
| `EventTimer.MenuOffersLegalEvents` | app.tsx:250-256 | an event is in the menu exactly when it is not FINISHED and the current state has a transition for it |
| `EventTimer.MenuExamples` | app.tsx:250-256 | idle offers WORK, BREAK, EXIT; work and break offer STOP; workFinished offers BREAK, STOP; breakFinished offers WORK, STOP; exit offers nothing |
| `EventTimer.ExitIsFinal` | app.tsx:79-81 | no event leaves `exit` |
| `EventTimer.NothingEntersBreakFinished` | app.tsx:64-67 | no entry of the table targets `breakFinished` |
| `EventTimer.BreakFinishedUnreachable` | app.tsx:37-82 | from any other state, no sequence of events reaches `breakFinished` |
| `EventTimer.OtherPhasesReachable` | app.tsx:41-67 | idle, work, workFinished, break and exit are each reached from the initial idle |
| `EventTimer.LightOf` | app.tsx:41-105 | only `exit` has no light; the timed states show a steady light and the waiting states a pulse |
| `EventTimer.Next` | app.tsx:40-111 | no contract of its own; specified by `EventTimer.StartTimeOfLatestEntry` and `EventTimer.NextFollowsRun` |
| `EventTimer.NextFollowsRun` | app.tsx:40-82 | the state `Next` reaches is the one `Run` gives for that one event, so `EventTimer.BreakFinishedUnreachable` holds of the machine |
| `EventTimer.StartTimeOfLatestEntry` | app.tsx:107-111 | an event without an entry changes nothing; entering work or break stamps `now`; any other event keeps the start time and durations |
| `EventTimer.FinishDue` | app.tsx:211-223 | no contract of its own; specified by `EventTimer.FinishDueWhenElapsed` and `EventTimer.FinishedRaisedOnce` |
| `EventTimer.FinishDueWhenElapsed` | app.tsx:211-223 | FINISHED is due exactly when a timed state has a start time and its duration has elapsed |
| `EventTimer.FinishedRaisedOnce` | app.tsx:217-223 | when FINISHED is due the machine takes it into workFinished, where it is never due again at any time |
| `EventTimer.PadTail` | app.tsx:153-156 | no contract of its own; specified by `EventTimer.PadTailTruncates` and `EventTimer.PadTailAgreesBelowWidth` |
| `EventTimer.PadTailTruncates` | app.tsx:153-156 | for size ≤ 10 the unguarded `pad` yields `size` digits denoting num mod 10^size |
| `EventTimer.PadTailAgreesBelowWidth` | app.tsx:153-156 | below 10^size the unguarded `pad` agrees with the lib.ts `pad` |
| `EventTimer.FormatMillis` | app.tsx:158-163 | no contract of its own; specified by `EventTimer.FormatMillisWraps` |
| `EventTimer.FormatMillisWraps` | app.tsx:158-163 | `formatMillis` is always 5 characters `MM:SS`, the minutes shown modulo 100, the seconds below 60 with the standard minute |
| `EventTimer.Timer.constructor` | app.tsx:34-47 | the machine starts in idle, light pulsing orange, durations 25/5 (5/5 in debug), no start time |
| `EventTimer.Timer.Apply` | app.tsx:85-111 | taking a transition sets the new state, stamps the start time on entry to work/break, and leaves only the new state's light on |
| `EventTimer.Timer.Send` | app.tsx:257-261 | an undeclared event type is rejected with nothing changed; a declared one is taken as `Next` prescribes |
| `EventTimer.Timer.Refresh` | app.tsx:211-223 | FINISHED is sent exactly when due, and the state then follows it |
| `PromptTimer.Choices` | app.ts:105-136 | the waiting states offer one to three answers; the timed states and `exit` prompt for none |
| `PromptTimer.SelectGuarded` | app.ts:34-40 | a guarded transition is taken exactly when the answer is among the targets, and it goes to the answer |
| `PromptTimer.OneGuardHolds` | app.ts:34-40 | with distinct targets, exactly one guard holds for an offered answer and none for any other |
| `PromptTimer.ChoicesDistinct` | app.ts:96-97 | the prompt lists have no repeated entries |
| `PromptTimer.PhaseNamed` | app.ts:105-140 | a target string resolves to the state of that name, and is refused exactly when no state has that name |
| `PromptTimer.ChoicesNamePhases` | app.ts:106-136 | every offered answer names a state |
| `PromptTimer.TickDue` | app.ts:76-83 | no contract of its own; specified by `PromptTimer.TickDueWhenElapsed` and `PromptTimer.TickDueIffProgressDone` |
| `PromptTimer.TickDueWhenElapsed` | app.ts:76-83 | the TICK guard holds exactly when a start time is set and elapsed ms ≥ duration·minute |
| `PromptTimer.TickDueIffProgressDone` | app.ts:81 | in a timed state the TICK guard holds exactly when lib.ts progress is defined with percent 0 |
| `PromptTimer.Target` | app.ts:73-140 | no contract of its own; specified by `PromptTimer.AnswerSelectsItsState`, `PromptTimer.IdleChoices`, `PromptTimer.TimedTransitions` and `PromptTimer.ExitOnlyFromIdle` |
| `PromptTimer.AnswerSelectsItsState` | app.ts:106-110 | an offered answer leads to the state it names; any other answer changes nothing |
| `PromptTimer.IdleChoices` | app.ts:19 | idle goes to work, break or exit on those answers and ignores every other answer |
| `PromptTimer.TimedTransitions` | app.ts:73-86 | TICK leaves work/break for workFinished/breakFinished exactly when the duration has elapsed; STOP goes to idle |
| `PromptTimer.ExitOnlyFromIdle` | app.ts:137-139 | exit is final and only idle leads to it |
| `PromptTimer.EntryStampsStartTime` | app.ts:165-169 | an event without a transition changes nothing; a transition sets the target, stamping `now` on entry to work/break and keeping the context otherwise |
| `PromptTimer.Next` | app.ts:165-169 | no contract of its own; specified by `PromptTimer.EntryStampsStartTime` |
| `PromptTimer.BreakFinishedReachable` | app.ts:125-129 | choosing break from idle and ticking after the break duration reaches breakFinished |
| `PromptTimer.LightOf` | app.ts:143-163 | only `exit` has no light; the timed states show a steady light and the waiting states a pulse |
| `PromptTimer.LightsAgree` | app.ts:143-163 | every state shows the same light in both front ends |
| `PromptTimer.Timer.constructor` | app.ts:99-104 | the machine starts in idle, light pulsing orange, durations 25/5 (5/5 in debug), no start time |
| `PromptTimer.Timer.Send` | app.ts:73-88 | an event moves the machine as `Next` prescribes, stamping the start time on entry and keeping only the new state's light on |

## Left out

- The busylight driver (`busylight.light`/`pulse`/`off`) is not modelled. The light is a field holding the current signal, or nothing when it is off.
- Rendering is not modelled: ink/React components, `Header` blinking and colours, the progress bar, `SelectInput`, `render`/`unmount`.
- The drivers of events are parameters, not code: the one-second `setInterval` of `useTime` and of the TICK invoke, the `prompts` calls, and the `askToStop` re-prompt. An event and the current time are passed to `Send`/`Refresh`.
- The xstate interpreter (`interpret`, `onDone`, `process.exit`) is replaced by the transition functions `Next` and the class methods.
- `Date` is replaced by integer milliseconds, and hours and minutes by natural numbers.
- `percent` and `minutesPassed` use exact `real` arithmetic, not IEEE doubles.
- Lib.GetProgress: requires a positive duration for the timed state. With duration 0 the JavaScript division gives Infinity or NaN, which is not modelled.
- `pad` and `formatMillis` take natural numbers only. JavaScript's rendering of negative or fractional numbers is not modelled, so a negative `millis` shown in the frame before FINISHED is taken is not covered.
- Lib.PadFits: stated for sizes 1 to 10. From size 11 on, a number with few digits makes the start passed to `substr` negative, so the result is not padded to `size` (`pad(5, 11)` is "5"). Every caller uses size 2.
- Numbers are rendered in plain decimal digits. JavaScript's exponent form from 10^21 on (`"000000000" + 1e21` is `"0000000001e+21"`) and its inexact integers above 2^53 are not modelled; timestamps and durations stay far below both.
- EventTimer.PadTailTruncates: stated for sizes up to 10. From size 11 on the start passed to `substr` can be negative and then counts from the end, so `pad(5, 11)` is "5".
- The debug switch on `npm_lifecyle_event` is a constructor parameter. It fixes the minute length and the work duration.
- `alertWithSound` is not part of this model. It is sound output, and its definition is not among the files modelled.
- Meeting scheduling and saving or restoring a session are not modelled, because none of the modelled files implements them.
- In `app.ts`, a prompt answer that arrives while a timed state is active is ignored, since those states have no `onDone`.
