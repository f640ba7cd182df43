# Typing practice: a Dafny model of `TextTyping`

This project models the logic of the `TextTyping` React component, a
typing-practice page. The component fetches a short sample passage and lets
the user type it into a text area. The first keystroke or focus starts a
300-second countdown, shown as `MM:SS`. A submit, or the countdown reaching
zero, scores the typed text in three figures:

- accuracy: 100 times the non-whitespace characters typed, over the sample's non-whitespace characters;
- word count: `trim().split(/\s+/).length`;
- time taken.

The model has four modules:

- `Options` holds the `Option` datatype.
- `TimeFormat` models `formatTime`. It includes JavaScript's floor division, its truncating `%`, `toString` and `padStart`. `ParseClock` is the inverse it is proved against.
- `TextMetrics` models the text measurements:
  - `\s` as JavaScript defines it;
  - `replace(/\s/g, '')`, `trim` and `split(/\s+/)`;
  - the word count, and the accuracy as an exact value.
  The accuracy is `Ratio(num, den)`, `Infinity` for a blank (all-whitespace) sample when some non-whitespace was typed, and `NaN` for a blank sample when no non-whitespace was typed. `RunCount`, an independent count of maximal non-whitespace runs, is the reference the word count is proved against.
- `TypingSession` is the component's state machine. Its `State` holds the nine `useState` fields, and each event handler is a pure function of the state before the event. React applies setters only after the handler returns, so each handler reads the old values. After each handler, the effect watching `remainingTime` runs if that field changed, and submits when it is 0.
  - `Step` applies one event: the handler, then that effect.
  - `Run` applies a sequence of events.
  - `Inv` is the invariant that every reachable state keeps.

Behaviour of the code that the model makes explicit:

- **Submit on mount.** The effect on `remainingTime` runs on mount with the initial value 0, so the component submits once as it mounts (`Mount`).
- **Duration on the first submit.** `handleSubmit` computes the time taken from the end stamp before the submit. A started practice has no end stamp, so submitting it never records a duration. A second submit records the time from the start to the first submit (`SecondSubmitRecordsTime`).
- **Edits during a practice.** An edit or focus during a practice resets it instead of continuing. The countdown goes back to 300 and the start stamp is cleared, while `practiceStarted` stays true (`EditWhileRunningRestarts`).
- **The five-minute timeout.** The timeout armed by the starting edit runs the `handleSubmit` of the render that armed it. It therefore scores the text as it was before that edit. Nothing cancels it, because `clearTimeout()` is called without a timer (`DeadlineSubmit`, `DeadlineScoresEmptyText`).
- **The Reset button.** It sits in the form without `type="button"`. A click therefore also submits the form, and the result scores the empty text (`ResetButtonEndsPractice`). The model assumes the component re-renders between the click and the submit events, so the submit handler sees the reset state.
- **A worked practice.** "Bacon ipsum dolor amet" has 19 non-whitespace characters (`BaconSampleCount`). Typing "Bacon ipsum" against it and submitting scores 1000/19, about 52.63%, and two words, and records no duration (`BaconAccuracy`, `BaconPractice`).
- **Word count of empty text.** The word count of empty or all-whitespace text is 1, because splitting the empty string gives one empty piece (`WordCountIsRunCount`).

## Model

| member | source | states |
|---|---|---|
| TimeFormat.NatToString | src/components/TextTyping.jsx:105 | `toString` of a non-negative number gives decimal digits that denote it, with no leading zero; one character exactly below 10, at most two below 100 |
| TimeFormat.IntToString | src/components/TextTyping.jsx:105 | `toString` of a negative number is `-` followed by the digits of its magnitude |
| TimeFormat.PadStart | src/components/TextTyping.jsx:105 | `padStart(2, '0')` keeps the string as a suffix and fills the front with the fill character up to the width |
| TimeFormat.FloorMinutes | src/components/TextTyping.jsx:103 | `Math.floor(seconds / 60)` is the unique q with 60q <= seconds < 60q + 60 |
| TimeFormat.JsRemainder60 | src/components/TextTyping.jsx:104 | JavaScript's `seconds % 60` lies strictly between -60 and 60, has the sign of the dividend, and differs from it by a multiple of 60 |
| TimeFormat.FormatTime | src/components/TextTyping.jsx:102-106 | for 0 to 5999 seconds the display is five characters `MM:SS`, all digits but the colon, with seconds below 60, and minutes times 60 plus seconds giving back the input |
| TimeFormat.ParseFormatRoundTrip | src/components/TextTyping.jsx:102-106 | reading the display back as minutes and seconds gives the original count, for every non-negative count |
| TimeFormat.FormatTimeInjective | src/components/TextTyping.jsx:102-106 | distinct non-negative counts are displayed differently |
| TimeFormat.FormatTimeMinusOne | src/components/TextTyping.jsx:103-105 | with floor division and the truncating `%`, -1 second is displayed as `-1:-1` |
| TextMetrics.StripSpaces | src/components/TextTyping.jsx:84-85 | `replace(/\s/g, '')` leaves no whitespace, is empty exactly for all-whitespace text, and keeps the length exactly when there was none |
| TextMetrics.StripOccurrences | src/components/TextTyping.jsx:84-85 | the stripped text keeps every non-whitespace character as often as it occurs and drops every whitespace character |
| TextMetrics.StripAppend | src/components/TextTyping.jsx:84-85 | stripping distributes over concatenation |
| TextMetrics.NonSpaceCount | src/components/TextTyping.jsx:84-85 | the number of non-whitespace characters, counted as Unicode scalar values, is at most the length, 0 exactly for all-whitespace text, and the full length exactly when there is no whitespace |
| TextMetrics.NonSpaceCountAdditive | src/components/TextTyping.jsx:84-85 | the non-whitespace count of a concatenation is the sum of the counts |
| TextMetrics.IsSpace | src/components/TextTyping.jsx:84-85 | the characters JavaScript's `\s` matches, which are also those `trim()` removes: tab, line feed, vertical tab, form feed, carriage return, the Unicode space separators, U+FEFF and the line and paragraph separators |
| TextMetrics.TrimStart | src/components/TextTyping.jsx:91 | the leading-whitespace trim is no longer than the text and keeps its last character; it starts with a non-whitespace character or is empty, empty exactly when the text is all whitespace, and everything removed is whitespace |
| TextMetrics.TrimStartSuffix | src/components/TextTyping.jsx:91 | what the leading-whitespace trim leaves is a suffix of the text |
| TextMetrics.TrimEnd | src/components/TextTyping.jsx:91 | the trailing-whitespace trim is no longer than the text and keeps its first character; it ends with a non-whitespace character or is empty, empty exactly when the text is all whitespace, and everything removed is whitespace |
| TextMetrics.TrimEndPrefix | src/components/TextTyping.jsx:91 | what the trailing-whitespace trim leaves is a prefix of the text |
| TextMetrics.Trim | src/components/TextTyping.jsx:91 | `trim()` is empty exactly for all-whitespace text and otherwise starts and ends with non-whitespace |
| TextMetrics.TrimPadded | src/components/TextTyping.jsx:91 | trimming whitespace padding around a text with non-whitespace ends gives back that text |
| TextMetrics.Split | src/components/TextTyping.jsx:91 | `split(/\s+/)` returns at least one piece and no piece contains whitespace |
| TextMetrics.SplitAfterWord | src/components/TextTyping.jsx:91 | where `split(/\s+/)` breaks: a whitespace-free word followed by a whitespace run is the first piece, and the text after the run splits on its own |
| TextMetrics.SplitKeepsText | src/components/TextTyping.jsx:91 | joining the pieces gives the text without its whitespace: splitting loses only separators |
| TextMetrics.SplitPiecesNonEmpty | src/components/TextTyping.jsx:91 | for text ending in non-whitespace, every piece after the first is non-empty, and so is the first when the text starts with non-whitespace |
| TextMetrics.WordCount | src/components/TextTyping.jsx:90-93 | the word count is at least 1 |
| TextMetrics.WordCountIsRunCount | src/components/TextTyping.jsx:90-93 | the word count equals the number of maximal non-whitespace runs, except that text with none counts as 1 |
| TextMetrics.WordCountPadded | src/components/TextTyping.jsx:90-93 | surrounding whitespace does not change the word count |
| TextMetrics.RunCountZero | src/components/TextTyping.jsx:90-93 | text has no words exactly when it is all whitespace, the case the word count reports as 1 |
| TextMetrics.AccuracyOf | src/components/TextTyping.jsx:83-88 | `calculateAccuracy`: 100 times the typed non-whitespace count over the sample's, as JavaScript divides: `Infinity` when only the denominator is 0, `NaN` when both are |
| TextMetrics.AccuracyMeaning | src/components/TextTyping.jsx:83-88 | accuracy is finite exactly when the sample has non-whitespace, equal to 100 times typed over sample characters; above 100% exactly when more was typed, 100% exactly when as much; `Infinity` for a blank sample with typed text, `NaN` when both are blank |
| TextMetrics.AccuracyIgnoresSpaces | src/components/TextTyping.jsx:83-88 | whitespace in sample or typed text plays no part in the accuracy |
| TextMetrics.AccuracyAdditive | src/components/TextTyping.jsx:83-88 | against a non-blank sample, the accuracy of two typed pieces is the sum of their accuracies |
| TextMetrics.SpacedCount | src/components/TextTyping.jsx:84-85 | a space between two texts adds nothing to the non-whitespace count |
| TextMetrics.TwoWords | src/components/TextTyping.jsx:91-92 | two whitespace-free words joined by a space count as two words |
| TextMetrics.BaconSampleCount | src/components/TextTyping.jsx:84 | "Bacon ipsum dolor amet" has 19 non-whitespace characters |
| TextMetrics.BaconTyped | src/components/TextTyping.jsx:84-92 | "Bacon ipsum" has two words and 10 non-whitespace characters |
| TextMetrics.BaconAccuracy | src/components/TextTyping.jsx:83-88 | typing "Bacon ipsum" against that sample scores 1000/19 |
| TypingSession.Initial | src/components/TextTyping.jsx:4-12 | the initial state has empty texts, no stamps or duration, word count 0, accuracy 0, countdown 0 and no practice running |
| TypingSession.SampleLoaded | src/components/TextTyping.jsx:29-31 | a successful fetch stores the passage and changes nothing else |
| TypingSession.Reset | src/components/TextTyping.jsx:61-70 | a reset empties the text, clears the stamps, duration and scores, re-arms 300 seconds, and leaves the passage and `practiceStarted` as they were |
| TypingSession.InputChange | src/components/TextTyping.jsx:41-59 | every change stores the new text and leaves a practice running with 300 seconds, no end stamp and cleared scores; the start stamp is the change's time when none was running and cleared when one was |
| TypingSession.TimeTakenAfterSubmit | src/components/TextTyping.jsx:95-100 | the duration is end minus start from the state before the submit when both stamps were set, and the old duration otherwise |
| TypingSession.Submit | src/components/TextTyping.jsx:72-81 | a submit stamps the end, stops the practice, scores accuracy and word count of the current text, and leaves text, passage, start and countdown alone |
| TypingSession.DeadlineSubmit | src/components/TextTyping.jsx:54-56 | the five-minute timeout stamps the end and stops the practice, but scores the state its starting edit saw, and takes the duration from that state |
| TypingSession.DeadlineOfCurrentIsSubmit | src/components/TextTyping.jsx:54-56 | a timeout that sees the current state is exactly a submit |
| TypingSession.Tick | src/components/TextTyping.jsx:108-115 | the one-second timer takes one second off a running practice with time left and does nothing otherwise |
| TypingSession.ZeroTimeEffect | src/components/TextTyping.jsx:18-22 | the effect submits exactly when the countdown is 0 |
| TypingSession.Handle | src/components/TextTyping.jsx:138-142 | which handler each event runs: the fetch's `setParagraphs`, `handleInputChange` for both change and focus, `handleSubmit` for the form, `handleReset` for the button, the one-second timer and the five-minute timeout |
| TypingSession.AfterEffect | src/components/TextTyping.jsx:18-22 | the effect on `remainingTime` runs after a handler only when that handler changed the countdown, and then submits at 0 |
| TypingSession.Step | src/components/TextTyping.jsx:41-115 | one event, written case by case: each event is its handler, except that the tick taking a running practice's last second is followed by the submit |
| TypingSession.StepIsHandlerThenEffect | src/components/TextTyping.jsx:18-22 | every event is its handler followed by the `remainingTime` effect; the effect adds a submit only after the tick that takes a running practice's last second |
| TypingSession.Run | src/components/TextTyping.jsx:41-115 | a sequence of events applied one after another, each to the state the previous one left |
| TypingSession.Mount | src/components/TextTyping.jsx:4-22 | on mount the effect submits at once: end stamp set, accuracy `NaN` (0 of 0 characters), word count 1, no practice running, and the texts still empty with no start stamp |
| TypingSession.Inv | src/components/TextTyping.jsx:41-115 | the countdown stays within 0..300, and a running practice has time left, no end stamp and no duration |
| TypingSession.StepKeepsInv | src/components/TextTyping.jsx:41-115 | every event keeps the countdown within 0..300, and a running practice with time left, no end stamp and no duration |
| TypingSession.RunKeepsInv | src/components/TextTyping.jsx:41-115 | every sequence of events keeps that invariant |
| TypingSession.ReachableInv | src/components/TextTyping.jsx:4-22 | every state reachable from mounting satisfies the invariant |
| TypingSession.Countdown | src/components/TextTyping.jsx:108-115 | while time remains, n ticks take exactly n seconds off a running practice and change nothing else |
| TypingSession.CountdownExpires | src/components/TextTyping.jsx:18-22 | when a running practice's countdown runs out it is submitted: stopped, end stamped, scored on the text at that moment |
| TypingSession.TicksAfterSubmit | src/components/TextTyping.jsx:108-115 | once no practice is running, ticks change nothing |
| TypingSession.SubmitRunningRecordsNoTime | src/components/TextTyping.jsx:95-100 | submitting a running practice stamps the end but records no duration |
| TypingSession.FirstSubmitRecordsNoTime | src/components/TextTyping.jsx:95-100 | an edit that starts a practice followed by a submit leaves both stamps set and no duration |
| TypingSession.SecondSubmitRecordsTime | src/components/TextTyping.jsx:95-100 | submitting again afterwards records the time from the start to the first submit |
| TypingSession.EditWhileRunningRestarts | src/components/TextTyping.jsx:41-59 | an edit or focus during a practice restarts it: 300 seconds, start cleared, still started, with the new text |
| TypingSession.StartStaysCleared | src/components/TextTyping.jsx:41-70 | without a further edit or focus the start stamp stays unset; without the five-minute timeout the duration can only stay or be cleared |
| TypingSession.DeadlineScoresEmptyText | src/components/TextTyping.jsx:54-56 | the timeout armed by the first keystroke after loading scores the empty text: word count 1, accuracy 0 of the sample (`NaN` for a blank sample), duration untouched |
| TypingSession.ResetButton | src/components/TextTyping.jsx:138-143 | a Reset click is the reset handler followed by a form submit |
| TypingSession.ResetButtonSubmitsReset | src/components/TextTyping.jsx:130-143 | the Reset button amounts to a submit of the reset state |
| TypingSession.ResetButtonEndsPractice | src/components/TextTyping.jsx:130-143 | after the Reset button the text is empty, the practice stopped with 300 seconds armed, the end stamped, no duration, and the empty text scored |
| TypingSession.PracticeScores | src/components/TextTyping.jsx:41-100 | mount, load a sample, type a text and submit: the text is scored against the sample and no duration is recorded |
| TypingSession.BaconPractice | src/components/TextTyping.jsx:72-93 | mount, load "Bacon ipsum dolor amet", type "Bacon ipsum" and submit: accuracy 1000/19, two words, no duration |
| TypingSession.TimerDisplay | src/components/TextTyping.jsx:145-147 | the countdown is shown exactly while a practice runs |
| TypingSession.DisplayedClock | src/components/TextTyping.jsx:145-147 | in every state satisfying the invariant, the shown countdown is `0M:SS` and reads back as the seconds remaining |

## Left out

- The network fetch of the sample (lines 24-38) is left out: a successful fetch is the `Loaded` event, and a failed one is no event (it only logs).
- Rendering is left out: the markup, `renderResult`, and the `endTime` and `timeTaken` truthiness tests that decide what is shown.
- Clocks are parameters: `new Date()` is the integer millisecond stamp given with each event, and the real-time scheduling of the timers is the order of the events.
- TextMetrics.AccuracyOf: the accuracy is the exact quotient, not the string that floating-point division and `toFixed(2)` produce. Its counts are those of `NonSpaceCount`, so a character outside the Basic Multilingual Plane counts 1 here and 2 in the component: typing one emoji against the sample "a" scores 100 here and 200 there.
- TextMetrics.NonSpaceCount: counts Unicode scalar values, while JavaScript's `.length` counts UTF-16 code units. A character outside the Basic Multilingual Plane counts 1 here and 2 in the component; the two counts agree on every other text.
- TypingSession.TimeTakenAfterSubmit: the duration is the difference in milliseconds, not the seconds string that `/ 1000` and `toFixed(2)` produce.
- TypingSession.Step: React's batching and render timing are idealised. Each event is handled against the state its handler's render saw, and the effects run after it. The Reset button's submit is assumed to see the re-rendered state.
- The one-second timer's cleanup (line 113) is not modelled separately. At most one tick is pending, and a tick is an event that applies only while a practice runs with time left.
- The five-minute timeout is an event that carries the state its starting edit saw. The model does not enforce that it fires 300 seconds after that edit, or once per starting edit.
- TextMetrics.IsSpace: characters are Unicode scalar values rather than UTF-16 code units. The space separators are those of current Unicode (U+0020, U+00A0, U+1680, U+2000-U+200A, U+202F, U+205F, U+3000).
- TimeFormat.NatToString: gives plain decimal digits for every size of number, while JavaScript's `toString` writes numbers from 10^21 up in exponent form. `formatTime` only sees 0 to 300 here.
- TimeFormat.FormatTime: the five-character shape is stated for 0 to 5999 seconds. The countdown stays within 0 to 300, and longer counts have wider minute fields. Negative input is covered only by the `-1` example.
- Unmounting is not modelled, and neither are the pending timers it would leave behind.
