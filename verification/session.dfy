/** The session controller: `start`, the metronome tick, the end-of-sequence
    deferral, `speakMantra`, `stop` and `finalizeStop`, as one event machine.

    Time is counted in beats. A `Tick` event is one beat interval elapsing:
    the metronome callback runs when it is registered, and every pending
    deferred stop comes one beat closer. Speech, gallery and timer callbacks
    arrive as the other events. */
module Session {
  import opened Wrappers
  import Shuffle
  import Text

  type Url = string

  /** The metronome interval, with the tempo and slide interval its tick
      callback captured. */
  datatype MetronomeTimer = MetronomeTimer(bpm: int, next: int)

  /** The mantra interval, with the trimmed mantra its callback speaks. */
  datatype MantraTimer = MantraTimer(bpm: int, mantra: string)

  /** The open gallery: its current slide, and the slide interval its
      slide-end callback captured. */
  datatype Gallery = Gallery(index: nat, next: int)

  /** The mantra display element. */
  datatype Display = Display(visible: bool, text: string)

  const Hidden: Display := Display(false, "")

  /** The two validation messages `start` can show. */
  datatype Alert = UploadFirst | InvalidBpm

  /** What a transition asks of the platform. */
  datatype Effect =
    | ShowAlert(alert: Alert)
    | OpenGallery(slides: seq<Url>)
    | PlayTick
    | NextSlide
    | Speak(text: string)
    | CancelSpeech

  /** The session object plus the variables the callbacks share.
      `deferredStops` holds the pending one-shot stop timers as beats left,
      `polls` the speaking-flag polls `stop` has started and not cleared, and
      `pendingCancels` the speech cancellations waiting out their grace delay. */
  datatype State = State(
    urls: seq<Url>,
    beatCount: nat,
    gallery: Option<Gallery>,
    isSpeaking: bool,
    metronome: Option<MetronomeTimer>,
    ttsInterval: Option<MantraTimer>,
    display: Display,
    deferredStops: seq<nat>,
    polls: nat,
    pendingCancels: nat)

  datatype Transition = Transition(state: State, effects: seq<Effect>)

  /** What can happen to a session. `Start` carries the tempo and slide
      interval as `parseInt(...) || 0` produced them, the raw mantra text,
      and the `Math.random` draws of its shuffle. `Stop` is the gallery's
      close callback; `GraceElapsed` ends the delay before cancelling speech. */
  datatype Event =
    | Start(bpm: int, next: int, mantraInput: string, draws: nat -> Shuffle.Draw)
    | Tick
    | SlideEnd(index: nat)
    | SpeakMantra
    | UtteranceEnd
    | Stop
    | PollSpeaking
    | GraceElapsed

  /** A page with `urls` uploaded and nothing running. */
  function Idle(urls: seq<Url>): State {
    State(urls, 0, None, false, None, None, Hidden, [], 0, 0)
  }

  /** The gallery shows a slide that exists, the metronome only runs beside
      the gallery of its own `start`, and every pending stop is in the future. */
  predicate Valid(s: State) {
    && (s.gallery.Some? ==> s.gallery.value.index < |s.urls|)
    && (s.metronome.Some? ==> s.gallery.Some? && s.gallery.value.next == s.metronome.value.next)
    && (forall k :: 0 <= k < |s.deferredStops| ==> s.deferredStops[k] > 0)
  }

  /** `start`. */
  function StartSession(s: State, bpm: int, next: int, mantraInput: string,
                        draws: nat -> Shuffle.Draw): (t: Transition)
    ensures |s.urls| == 0 ==> t == Transition(s, [ShowAlert(UploadFirst)])
    ensures |s.urls| > 0 ==> |t.state.urls| == |s.urls| && multiset(t.state.urls) == multiset(s.urls)
    ensures |s.urls| > 0 && bpm <= 0 ==> t == Transition(s.(urls := t.state.urls), [ShowAlert(InvalidBpm)])
    ensures |s.urls| > 0 && bpm > 0 ==>
      && t.effects == [OpenGallery(t.state.urls)]
      && t.state.gallery == Some(Gallery(0, next))
      && t.state.metronome == Some(MetronomeTimer(bpm, next))
      && t.state.beatCount == 0
    ensures t.state.ttsInterval != s.ttsInterval ==>
      |s.urls| > 0 && bpm > 0 && !Text.AllWhitespace(mantraInput)
    ensures |s.urls| > 0 && bpm > 0 && !Text.AllWhitespace(mantraInput) ==>
      t.state.ttsInterval == Some(MantraTimer(bpm, Text.Trim(mantraInput)))
    ensures t.state.(urls := s.urls, beatCount := s.beatCount, gallery := s.gallery,
                     metronome := s.metronome, ttsInterval := s.ttsInterval) == s
  {
    if |s.urls| == 0 then Transition(s, [ShowAlert(UploadFirst)])
    else
      var mantra := Text.Trim(mantraInput);
      var shuffled := Shuffle.FisherYates(s.urls, draws);
      if bpm > 0 then
        var tts := if |mantra| > 0 then Some(MantraTimer(bpm, mantra)) else s.ttsInterval;
        Transition(
          s.(urls := shuffled, beatCount := 0, gallery := Some(Gallery(0, next)),
             metronome := Some(MetronomeTimer(bpm, next)), ttsInterval := tts),
          [OpenGallery(shuffled)])
      else
        Transition(s.(urls := shuffled), [ShowAlert(InvalidBpm)])
  }

  /** The metronome callback moves the gallery on this beat. */
  predicate AdvanceDue(s: State) {
    && s.metronome.Some?
    && s.metronome.value.next > 0
    && (s.beatCount + 1) % s.metronome.value.next == 0
    && s.gallery.Some?
    && s.gallery.value.index < |s.urls| - 1
  }

  /** One run of the metronome's interval callback, or nothing when no
      metronome is registered. */
  function MetronomeTick(s: State): (t: Transition)
    ensures s.metronome.None? ==> t == Transition(s, [])
    ensures s.metronome.Some? ==> t.state.beatCount == s.beatCount + 1
    ensures s.metronome.Some? ==> t.effects == if AdvanceDue(s) then [PlayTick, NextSlide] else [PlayTick]
    ensures t.state.gallery.Some? <==> s.gallery.Some?
    ensures s.gallery.Some? ==>
      var before := s.gallery.value.index;
      var after := t.state.gallery.value.index;
      && t.state.gallery.value.next == s.gallery.value.next
      && (after == before || after == before + 1)
      && (after == before + 1 <==>
            s.metronome.Some? && s.metronome.value.next > 0
            && t.state.beatCount % s.metronome.value.next == 0 && before < |s.urls| - 1)
    ensures t.state.(beatCount := s.beatCount, gallery := s.gallery) == s
  {
    match s.metronome
    case None => Transition(s, [])
    case Some(m) =>
      var s1 := s.(beatCount := s.beatCount + 1);
      if AdvanceDue(s) then
        Transition(s1.(gallery := Some(s.gallery.value.(index := s.gallery.value.index + 1))),
                   [PlayTick, NextSlide])
      else
        Transition(s1, [PlayTick])
  }

  /** One beat passes for the pending deferred stops: the ones with a beat
      left fire, the others keep waiting one beat less. Returns the timers
      still pending and the number that fired. */
  function CountDown(stops: seq<nat>): (r: (seq<nat>, nat))
    ensures |r.0| + r.1 == |stops|
    ensures forall k :: 0 <= k < |r.0| ==> r.0[k] > 0
    ensures forall k :: 0 <= k < |stops| && stops[k] > 1 ==> stops[k] - 1 in r.0
    ensures r.1 > 0 <==> exists k :: 0 <= k < |stops| && stops[k] <= 1
    decreases |stops|
  {
    if |stops| == 0 then ([], 0)
    else
      var rest := CountDown(stops[1..]);
      assert forall k :: 1 <= k < |stops| ==> stops[k] == stops[1..][k - 1];
      if stops[0] <= 1 then (rest.0, rest.1 + 1)
      else ([stops[0] - 1] + rest.0, rest.1)
  }

  /** Exactly the stops with at most one beat left fire: one call of `stop`
      for each of them. */
  lemma {:induction false} CountDownFired(stops: seq<nat>)
    ensures CountDown(stops).1 == multiset(stops)[0] + multiset(stops)[1]
    decreases |stops|
  {
    if |stops| > 0 {
      CountDownFired(stops[1..]);
      CountOfHead(stops, 0);
      CountOfHead(stops, 1);
    }
  }

  /** Every other stop stays pending with one beat less: for each positive
      count `v`, the pending stops with `v` beats left are exactly as many
      as the former stops with `v + 1`. */
  lemma {:induction false} CountDownPending(stops: seq<nat>, v: nat)
    requires v > 0
    ensures multiset(CountDown(stops).0)[v] == multiset(stops)[v + 1]
    decreases |stops|
  {
    if |stops| > 0 {
      var rest := CountDown(stops[1..]);
      CountDownPending(stops[1..], v);
      CountOfHead(stops, v + 1);
      if stops[0] > 1 {
        CountOfPrepended(stops[0] - 1, rest.0, v);
      }
    }
  }

  /** How often `w` occurs in a sequence, split at its first element. */
  lemma CountOfHead(s: seq<nat>, w: nat)
    requires |s| > 0
    ensures multiset(s)[w] == (if s[0] == w then 1 else 0) + multiset(s[1..])[w]
  {
    assert s == [s[0]] + s[1..];
  }

  lemma CountOfPrepended(x: nat, t: seq<nat>, w: nat)
    ensures multiset([x] + t)[w] == (if x == w then 1 else 0) + multiset(t)[w]
  {
  }

  /** `finalizeStop`: both intervals cleared, the mantra display hidden and
      emptied, and the grace-delayed speech cancellation started. */
  function FinalizeStop(s: State): (r: State)
    ensures r.metronome.None? && r.ttsInterval.None?
    ensures r.display == Hidden
    ensures r.pendingCancels == s.pendingCancels + 1
    ensures r.(metronome := s.metronome, ttsInterval := s.ttsInterval, display := s.display,
               pendingCancels := s.pendingCancels) == s
  {
    s.(metronome := None, ttsInterval := None, display := Hidden,
       pendingCancels := s.pendingCancels + 1)
  }

  /** `stop`: finalizes at once when nothing is being spoken, and otherwise
      only starts a poll of the speaking flag, leaving the timers running. */
  function StopSession(s: State): (r: State)
    ensures !s.isSpeaking ==> r == FinalizeStop(s)
    ensures s.isSpeaking ==>
      && r.metronome == s.metronome && r.ttsInterval == s.ttsInterval && r.display == s.display
      && r.polls == s.polls + 1
      && r.(polls := s.polls) == s
  {
    if s.isSpeaking then s.(polls := s.polls + 1) else FinalizeStop(s)
  }

  /** `n` calls of `stop`, as made by `n` deferred stops falling due together. */
  function StopTimes(s: State, n: nat): (r: State)
    ensures n == 0 ==> r == s
    ensures n > 0 && !s.isSpeaking ==>
      r.metronome.None? && r.ttsInterval.None? && r.display == Hidden
    ensures s.isSpeaking ==> r == s.(polls := s.polls + n)
    ensures r.metronome.None? || r.metronome == s.metronome
    ensures r.ttsInterval.None? || r.ttsInterval == s.ttsInterval
    ensures r.urls == s.urls && r.beatCount == s.beatCount && r.gallery == s.gallery
    ensures r.isSpeaking == s.isSpeaking && r.deferredStops == s.deferredStops
    decreases n
  {
    if n == 0 then s else StopTimes(StopSession(s), n - 1)
  }

  /** One beat interval elapses. */
  function OnTick(s: State): (t: Transition)
    ensures t.effects == MetronomeTick(s).effects
  {
    var m := MetronomeTick(s);
    var (pending, due) := CountDown(s.deferredStops);
    Transition(StopTimes(m.state.(deferredStops := pending), due), m.effects)
  }

  /** `next - (beatCount % next)` as JavaScript evaluates it: `None` stands
      for NaN, which `%` yields for a zero divisor. JavaScript's remainder
      takes the sign of the dividend, which is never negative here. */
  function RemainingBeats(next: int, beatCount: nat): (r: Option<int>)
    ensures r.None? <==> next == 0
    ensures next > 0 ==> r.Some? && 1 <= r.value <= next && (beatCount + r.value) % next == 0
    ensures next < 0 ==> r.Some? && r.value < 0
  {
    if next == 0 then None
    else if next > 0 then
      GridAlignment(beatCount, next);
      Some(next - beatCount % next)
    else
      Some(next - beatCount % -next)
  }

  /** Adding `d - b % d` to `b` reaches the next multiple of `d`. */
  lemma GridAlignment(b: nat, d: int)
    requires d > 0
    ensures (b + (d - b % d)) % d == 0
  {
    var q := b / d;
    assert b + (d - b % d) == d * (q + 1);
    MultipleMod(d, q + 1);
  }

  /** A multiple of `d` leaves no remainder: `d * m` already splits as
      `d * (d * m / d) + (d * m) % d`, and the remainder, a multiple of `d`
      below `d`, can only be 0. */
  lemma MultipleMod(d: int, m: nat)
    requires d > 0
    ensures (d * m) % d == 0
  {
    var x := d * m;
    var k := m - x / d;
    assert x == d * (x / d) + x % d;
    assert d * k == x % d;
    ScaledAwayFromZero(d, k);
  }

  /** A nonzero multiple of a positive `d` is at least `d` away from zero. */
  lemma ScaledAwayFromZero(d: int, k: int)
    requires d > 0
    ensures k >= 1 ==> d * k >= d
    ensures k <= -1 ==> d * k <= -d
  {
  }

  /** The deferred stop's delay in beats. The timeout is that many beat
      intervals long; `setTimeout` treats a NaN or negative delay as 0. */
  function StopDelay(next: int, beatCount: nat): (d: nat)
    ensures next > 0 ==> 1 <= d <= next && (beatCount + d) % next == 0
    ensures next <= 0 ==> d == 0
  {
    match RemainingBeats(next, beatCount)
    case None => 0
    case Some(k) => if k < 0 then 0 else k
  }

  /** The gallery's slide-end callback. Reaching the last slide schedules a
      stop for the next slide boundary of the beat grid; a zero delay stops
      at once. */
  function OnSlideEnd(s: State, index: nat): (r: State)
    ensures s.gallery.None? || index != |s.urls| - 1 ==> r == s
    ensures s.gallery.Some? && index == |s.urls| - 1 && s.gallery.value.next <= 0 ==>
      r == StopSession(s)
    ensures s.gallery.Some? && index == |s.urls| - 1 && s.gallery.value.next > 0 ==>
      && r == s.(deferredStops := r.deferredStops)
      && r.deferredStops == s.deferredStops + [StopDelay(s.gallery.value.next, s.beatCount)]
  {
    match s.gallery
    case None => s
    case Some(g) =>
      if index != |s.urls| - 1 then s
      else
        var delay := StopDelay(g.next, s.beatCount);
        if delay == 0 then StopSession(s)
        else s.(deferredStops := s.deferredStops + [delay])
  }

  /** `speakMantra`, run by the mantra interval: shows the mantra, starts
      speaking it and raises the speaking flag. */
  function OnSpeakMantra(s: State): (t: Transition)
    ensures s.ttsInterval.None? ==> t == Transition(s, [])
    ensures s.ttsInterval.Some? ==>
      && t.state.isSpeaking
      && t.state.display == Display(true, s.ttsInterval.value.mantra)
      && t.effects == [Speak(s.ttsInterval.value.mantra)]
    ensures t.state.(isSpeaking := s.isSpeaking, display := s.display) == s
  {
    match s.ttsInterval
    case None => Transition(s, [])
    case Some(timer) =>
      Transition(s.(isSpeaking := true, display := Display(true, timer.mantra)), [Speak(timer.mantra)])
  }

  /** One firing of a speaking-flag poll: once the flag is down the poll
      clears itself and finalizes the stop. */
  function OnPollSpeaking(s: State): (r: State)
    ensures s.polls == 0 || s.isSpeaking ==> r == s
    ensures s.polls > 0 && !s.isSpeaking ==>
      && r.metronome.None? && r.ttsInterval.None? && r.display == Hidden
      && r.polls == s.polls - 1
      && r.(polls := s.polls) == FinalizeStop(s)
  {
    if s.polls == 0 || s.isSpeaking then s
    else FinalizeStop(s).(polls := s.polls - 1)
  }

  /** The grace delay after `finalizeStop` ends: speech is cancelled. */
  function OnGraceElapsed(s: State): (t: Transition)
    ensures |t.effects| == if s.pendingCancels > 0 then 1 else 0
    ensures forall k :: 0 <= k < |t.effects| ==> t.effects[k] == CancelSpeech
    ensures t.state.pendingCancels == if s.pendingCancels > 0 then s.pendingCancels - 1 else 0
    ensures t.state.(pendingCancels := s.pendingCancels) == s
  {
    if s.pendingCancels == 0 then Transition(s, [])
    else Transition(s.(pendingCancels := s.pendingCancels - 1), [CancelSpeech])
  }

  /** Delivers one event. */
  function Step(s: State, e: Event): Transition {
    match e
    case Start(bpm, next, mantraInput, draws) => StartSession(s, bpm, next, mantraInput, draws)
    case Tick => OnTick(s)
    case SlideEnd(index) => Transition(OnSlideEnd(s, index), [])
    case SpeakMantra => OnSpeakMantra(s)
    case UtteranceEnd => Transition(s.(isSpeaking := false), [])
    case Stop => Transition(StopSession(s), [])
    case PollSpeaking => Transition(OnPollSpeaking(s), [])
    case GraceElapsed => OnGraceElapsed(s)
  }

  /** Delivers a series of events in order. */
  function Run(s: State, events: seq<Event>): State
    decreases |events|
  {
    if |events| == 0 then s else Run(Step(s, events[0]).state, events[1..])
  }
}
