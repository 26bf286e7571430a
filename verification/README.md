# Slideshow metronome session, modelled in Dafny

The application is a single-page slideshow toy. It shows uploaded images in
random order and ticks a metronome at a chosen tempo. It can also speak a
mantra with speech synthesis on every beat. This project models the logic of
`script.js`:

- `shuffleArray`, the backward Fisher–Yates shuffle (`shuffle.dfy`). It is
  written as a loop over a sequence and also as a recursive reference
  definition. `Math.random` is an oracle `nat -> Draw` whose k-th value is a
  real in [0, 1).
- The session controller: `start`, the metronome tick closure, the gallery's
  `onslideend` deferral, `speakMantra`, `stop` and `finalizeStop`
  (`session.dfy`, with properties in `session_props.dfy`). The controller is
  an immutable `State` plus a pure `Step(state, event)` function. Time is
  counted in beats. A `Tick` event is one beat interval elapsing. During a
  tick the metronome callback runs if it is registered, and every pending
  deferred stop comes one beat closer. A stop reaching zero calls `stop`.
- The default voice chosen by `populateVoiceList` (`voices.dfy`).
- `applySettingsFromURL` / `applySettingsFromLink`, which copy query
  parameters into the two input fields, and the import button's click
  handler, which rejects a blank link (`settings.dfy`).
- `String.prototype.trim`, which `start` applies to the mantra (`text.dfy`).
  It uses the exact ECMAScript whitespace and line-terminator set.

Decisions worth knowing:

- The `next` value at the end of the sequence. `next - (beatCount % next)`
  is NaN when `next` is 0. When `next` is negative it is a negative number.
  `setTimeout` runs both at once. The model therefore gives a delay of 0
  beats for every `next <= 0`, and `OnSlideEnd` calls `stop` at once
  (`Session.StopDelay`, `SessionProperties.EndOfSequenceWithoutIntervalStopsNow`).
  For `next > 0` the delay is in 1..`next` and lands on the beat grid.
- `finalizeStop` is not an event of its own. `stop` calls it, and so does a
  poll that finds the speaking flag down. The speech cancel it schedules
  after a grace delay is a counter, `pendingCancels`. The `GraceElapsed`
  event drains it with a `CancelSpeech` effect.
- Each call of `stop` during speech starts its own poll. `polls` counts the
  polls not yet cleared. Each `PollSpeaking` event is one poll firing.
- When `start` gets a blank mantra it keeps the previous mantra timer handle.
  The code assigns `ttsInterval` only inside `if (mantra)`.
- The voice default falls back to index 0 when no "Google UK English
  Female"/"en-GB" voice exists. It does not fall back to the voice the
  platform flags as default (script.js:33-36, `Voices.PopulateVoiceList`).
- `start` shuffles the urls before it checks the tempo, so the url order
  changes even when the tempo is rejected (script.js:77-79, 112-113,
  `Session.StartSession`).

## Model

| member | source | states |
|---|---|---|
| Shuffle.Pick | script.js:60 | the random partner index `floor(r * (i + 1))` lies in 0..i for every draw r in [0, 1) |
| Shuffle.ShuffleArray | script.js:58-63 | the loop keeps length and multiset, leaves a length ≤ 1 input alone, performs exactly n - 1 swaps (i, j) with i running from n - 1 down to 1 and j ≤ i < n, and equals both the swaps applied in order and the reference `FisherYates` |
| Shuffle.FisherYates | script.js:58-63 | the shuffled sequence is a permutation of the input (same length and multiset), and is the input itself when the length is at most 1 |
| Shuffle.PassesPermutes | script.js:59-62 | the iterations from position i down to 1 only rearrange elements and never touch positions above i |
| Shuffle.ApplySwapsPermutes | script.js:61 | any series of in-bounds swaps preserves the multiset of elements |
| Shuffle.ApplySwapsSnoc | script.js:59-61 | doing one more swap after a series equals applying the extended series |
| Text.Trim | script.js:74 | the trimmed mantra is the slice between the leading and trailing whitespace, starts and ends with non-whitespace, and is empty exactly when the input is all whitespace |
| Text.TrimIdempotent | script.js:74 | trimming an already trimmed mantra changes nothing |
| Voices.PopulateVoiceList | script.js:13-37 | the selection is -1 exactly for an empty list; with a "Google UK English Female"/"en-GB" voice present it is such a voice with none after it; otherwise it is 0 |
| Voices.LastPreferredIsLast | script.js:21-31 | the reference scan finds a preferred voice exactly when one exists, and no preferred voice follows it |
| Settings.Get | script.js:177 | a parameter is absent exactly when no pair has its name, and a present value is the value of the first pair with that name |
| Settings.ApplySettingsFromURL | script.js:174-186 | each field takes its parameter's value when present and keeps its value otherwise; without either parameter nothing changes |
| Settings.ApplySettingsFromLink | script.js:189-208 | a malformed link changes no field and reports failure; a well-formed one reports success and applies the same update as the page-URL import |
| Settings.ApplyLinkClicked | script.js:214-221 | a link that is blank after trimming reports an empty link and changes nothing; otherwise a rejected link reports failure and changes nothing, and an accepted one applies its parameters like the page-URL import |
| Settings.ImportIdempotent | script.js:190-202 | importing the same link twice gives the same fields as importing it once |
| Settings.LaterPairsIgnored | script.js:177-185 | only the first `bpm` and the first `next` pair decide the result |
| Settings.ExampleImport | script.js:190-204 | importing `?bpm=90&next=8` sets the fields to "90" and "8" and reports success |
| Session.StartSession | script.js:66-115 | no urls: state untouched and one alert; urls but tempo ≤ 0: only the url order changes (a permutation) and one alert; otherwise gallery at slide 0, metronome, beat count 0, and a mantra timer only for a mantra that is not all whitespace; nothing else changes |
| Session.MetronomeTick | script.js:94-103 | a registered metronome adds exactly one beat and plays a tick; the gallery moves forward by one exactly when `next > 0`, the new beat count is a multiple of `next` and the slide is not the last; nothing else changes |
| Session.OnTick | script.js:94-103 | one beat interval produces the metronome callback's effects |
| Session.CountDown | script.js:88 | no stop timer is lost: fired plus pending equals the former count; every pending timer has a beat left; every timer with more than one beat left stays pending one beat closer; at least one fires exactly when one had at most a beat left |
| Session.CountDownFired | script.js:88 | the number of stops that fire on a beat is exactly the number of timers that had at most one beat left |
| Session.CountDownPending | script.js:88 | for every positive v, the timers left pending with v beats are exactly as many as the former timers with v + 1 beats |
| Session.StopTimes | script.js:88 | stops falling due together finalize the session when nothing is spoken, otherwise only add polls; urls, beat count, gallery and the speaking flag are untouched |
| Session.RemainingBeats | script.js:87 | `next - beatCount % next` is NaN exactly when `next` is 0, lies in 1..next and reaches a multiple of `next` when `next > 0`, and is negative when `next < 0` |
| Session.StopDelay | script.js:87-88 | the deferred stop's delay is in 1..next and aligned to the beat grid when `next > 0`, and 0 otherwise |
| Session.OnSlideEnd | script.js:85-90 | only the last slide reacts; it schedules a stop after the grid delay, or stops at once when `next ≤ 0` |
| Session.FinalizeStop | script.js:132-146 | both timers cleared, the mantra display hidden and emptied, a speech cancel scheduled, no other field changed |
| Session.StopSession | script.js:118-129 | with the speaking flag down it finalizes at once; while speaking it only starts a poll and leaves timers and display alone |
| Session.OnPollSpeaking | script.js:120-125 | a poll does nothing while speech continues; once the flag is down it clears itself and finalizes |
| Session.OnSpeakMantra | script.js:106-111 | each firing of the mantra timer shows its mantra, speaks it and raises the speaking flag, and changes nothing else |
| Session.OnGraceElapsed | script.js:143-145 | with a cancel pending, exactly one `CancelSpeech` effect and one pending cancel fewer; with none, no effect; no other field changes |
| SessionProperties.IdleIsValid | script.js:2-10 | the initial session has no gallery and no timers and is well formed |
| SessionProperties.StepPreservesValid | script.js:85-103 | no event makes the gallery point past the last slide or leaves a stop pending for zero beats |
| SessionProperties.RunPreservesValid | script.js:85-103 | the same holds after any series of events |
| SessionProperties.SlideIndexStep | script.js:98-101 | outside `start` an event moves the gallery by zero or one slide forward, staying within the urls |
| SessionProperties.SlideIndexMonotone | script.js:98-101 | between starts the slide index never decreases and never exceeds the last slide |
| SessionProperties.AdvanceOnlyOnGrid | script.js:98 | a slide change outside `start` happens only on a metronome tick whose beat count is a positive multiple of `next` (beats 4, 8, 12, … for `next` = 4) |
| SessionProperties.BeatCountCountsTicks | script.js:96 | outside `start` the beat count grows by exactly one per metronome tick and is otherwise unchanged |
| SessionProperties.SpeakingClearedOnlyByUtteranceEnd | script.js:167-170 | only the utterance-end callback lowers the speaking flag |
| SessionProperties.SpeakingRaisedOnlyByMantraTimer | script.js:108-110 | only a firing of a registered mantra timer raises the speaking flag |
| SessionProperties.MantraTimerOnlyFromStart | script.js:106-111 | a mantra timer appears only through `start` with urls, tempo > 0 and a mantra that is not all whitespace; any other change removes it |
| SessionProperties.TimersHeldWhileSpeaking | script.js:118-126 | while speech is in progress no series of events without `start` or utterance end clears the metronome or the mantra timer |
| SessionProperties.StopCompletesAfterUtterance | script.js:119-125 | a stop during speech, followed by any events except `start` and the utterance end, then the utterance end, finalizes at the first poll and clears that poll; with no events in between the poll count, urls and gallery are as before |
| SessionProperties.GraceCancelsFinalizedSpeech | script.js:132-146 | the grace delay that `finalizeStop` starts issues exactly one speech cancellation and gives back the pending cancel `finalizeStop` added |
| SessionProperties.DeferredStopFires | script.js:88 | a pending stop with k beats left has cleared both timers after k beats when nothing is spoken |
| SessionProperties.LoneDeferredStopWaits | script.js:88 | a lone pending stop leaves the timers running on the beats before it falls due |
| SessionProperties.EndOfSequenceStopsOnGrid | script.js:85-89 | reaching the last slide with `next > 0` has stopped the session `next - beatCount % next` beats later, a delay in 1..next that ends on the beat grid, when nothing is spoken |
| SessionProperties.EndOfSequenceRunsUntilGrid | script.js:85-89 | when no other stop was pending, the timers keep running on every beat before that delay has passed |
| SessionProperties.EndOfSequenceWithoutIntervalStopsNow | script.js:85-89 | reaching the last slide with `next ≤ 0` stops at once |
| SessionProperties.StopDelayExamples | script.js:87 | interval 5 at beat 12 leaves 3 beats; interval 4 at beat 8 leaves 4; intervals 0 and -3 leave none |

## Left out

- Milliseconds are not modelled. The interval `(60 / bpm) * 1000` becomes one beat. The 100 ms poll and grace delays become the events `PollSpeaking` and `GraceElapsed`. Timer jitter becomes the freedom to order events.
- Floating point is not modelled. `Math.random() * (i + 1)` is computed on exact reals, so rounding of the product is not modelled.
- The uniformity of `Math.random` is left out because it needs probability. The draws are an input.
- `parseInt`, the `URL` constructor and `URLSearchParams` decoding are inputs. `Start` receives the integers `parseInt(...) || 0` produced. The link importer receives the decoded pairs, or `None` for a link the `URL` constructor rejects.
- The folder upload (`handleFolderUpload`, `URL.createObjectURL`), DOM updates, alerts and event-listener wiring are UI plumbing. The session's alerts and platform calls appear as `Effect` values. The importer's success, invalid-link and empty-link alerts appear as `Settings.Notice` values. The urls come from `Idle(urls)`.
- Howler playback, the speech-synthesis engine and blueimp Gallery internals are foreign libraries. This includes the `onvoiceschanged` registration, the voice chosen for an utterance and manual gallery navigation. They appear only as events (`SlideEnd`, `UtteranceEnd`, `Stop` for the gallery's close callback) and effects.
- Overlapping sessions from repeated starts are not modelled. A second `start` replaces the handles, and intervals leaked by an earlier start are not modelled. No single-session invariant is claimed.
- The option labels of the voice dropdown are display text and are not modelled.
- Session.OnTick: its contract states only the effects. Its change of state is stated through `Step` by the lemmas in `SessionProperties`.
