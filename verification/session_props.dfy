/** Properties of the session controller that span several events. */
module SessionProperties {
  import opened Wrappers
  import opened Session
  import Text

  /** `n` beat intervals with no other event in between. */
  function Ticks(n: nat): (r: seq<Event>)
    ensures |r| == n
    ensures forall k :: 0 <= k < n ==> r[k].Tick?
  {
    if n == 0 then [] else [Tick] + Ticks(n - 1)
  }

  predicate NoStart(events: seq<Event>) {
    forall k :: 0 <= k < |events| ==> !events[k].Start?
  }

  lemma IdleIsValid(urls: seq<Url>)
    ensures Valid(Idle(urls))
    ensures Idle(urls).metronome.None? && Idle(urls).ttsInterval.None? && Idle(urls).gallery.None?
  {
  }

  /** Every event keeps the session well formed: the gallery never points
      past the last slide and pending stops are always in the future. */
  lemma StepPreservesValid(s: State, e: Event)
    requires Valid(s)
    ensures Valid(Step(s, e).state)
  {
  }

  lemma {:induction false} RunPreservesValid(s: State, events: seq<Event>)
    requires Valid(s)
    ensures Valid(Run(s, events))
    decreases |events|
  {
    if |events| > 0 {
      StepPreservesValid(s, events[0]);
      RunPreservesValid(Step(s, events[0]).state, events[1..]);
    }
  }

  /** Between two starts the gallery only moves forward, one slide at a
      time, and never past the last slide. */
  lemma SlideIndexStep(s: State, e: Event)
    requires Valid(s) && s.gallery.Some? && !e.Start?
    ensures Step(s, e).state.gallery.Some?
    ensures Step(s, e).state.urls == s.urls
    ensures s.gallery.value.index <= Step(s, e).state.gallery.value.index <= s.gallery.value.index + 1
    ensures Step(s, e).state.gallery.value.index < |s.urls|
  {
  }

  lemma {:induction false} SlideIndexMonotone(s: State, events: seq<Event>)
    requires Valid(s) && s.gallery.Some? && NoStart(events)
    ensures Run(s, events).gallery.Some?
    ensures s.gallery.value.index <= Run(s, events).gallery.value.index < |s.urls|
    decreases |events|
  {
    if |events| > 0 {
      SlideIndexStep(s, events[0]);
      StepPreservesValid(s, events[0]);
      SlideIndexMonotone(Step(s, events[0]).state, events[1..]);
    }
  }

  /** The gallery advances only on a metronome beat whose count is a
      positive multiple of the slide interval: with `next` = 4, on beats
      4, 8, 12, and so on. */
  lemma AdvanceOnlyOnGrid(s: State, e: Event)
    requires Valid(s) && s.gallery.Some? && !e.Start?
    requires Step(s, e).state.gallery.value.index != s.gallery.value.index
    ensures e.Tick? && s.metronome.Some?
    ensures var next := s.metronome.value.next;
      && next > 0
      && Step(s, e).state.beatCount % next == 0
      && Step(s, e).state.beatCount >= next
  {
  }

  /** The beat count moves only with the metronome, one beat at a time. */
  lemma BeatCountCountsTicks(s: State, e: Event)
    requires !e.Start?
    ensures Step(s, e).state.beatCount ==
      s.beatCount + (if e.Tick? && s.metronome.Some? then 1 else 0)
  {
  }

  /** Only the end of an utterance lowers the speaking flag ... */
  lemma SpeakingClearedOnlyByUtteranceEnd(s: State, e: Event)
    requires s.isSpeaking && !Step(s, e).state.isSpeaking
    ensures e.UtteranceEnd?
  {
  }

  /** ... and only the mantra timer raises it. */
  lemma SpeakingRaisedOnlyByMantraTimer(s: State, e: Event)
    requires !s.isSpeaking && Step(s, e).state.isSpeaking
    ensures e.SpeakMantra? && s.ttsInterval.Some?
  {
  }

  /** A mantra timer is only ever created by a `start` with a positive tempo
      and a mantra that is not all whitespace; any other change removes it. */
  lemma MantraTimerOnlyFromStart(s: State, e: Event)
    requires Step(s, e).state.ttsInterval != s.ttsInterval
    ensures Step(s, e).state.ttsInterval.None? ||
      (e.Start? && |s.urls| > 0 && e.bpm > 0 && !Text.AllWhitespace(e.mantraInput))
  {
  }

  /** While the mantra is being spoken no event but `start` touches the
      metronome or the mantra timer: every `stop` in between only polls. */
  lemma {:induction false} TimersHeldWhileSpeaking(s: State, events: seq<Event>)
    requires s.isSpeaking && NoStart(events)
    requires forall k :: 0 <= k < |events| ==> !events[k].UtteranceEnd?
    ensures Run(s, events).isSpeaking
    ensures Run(s, events).metronome == s.metronome
    ensures Run(s, events).ttsInterval == s.ttsInterval
    ensures Run(s, events).polls >= s.polls
    decreases |events|
  {
    if |events| > 0 {
      TimersHeldWhileSpeaking(Step(s, events[0]).state, events[1..]);
    }
  }

  /** Running two series of events one after the other is running their
      concatenation. */
  lemma {:induction false} RunConcat(s: State, a: seq<Event>, b: seq<Event>)
    ensures Run(s, a + b) == Run(Run(s, a), b)
    decreases |a|
  {
    if |a| == 0 {
      assert a + b == b;
    } else {
      var s1 := Step(s, a[0]).state;
      assert (a + b)[0] == a[0];
      assert (a + b)[1..] == a[1..] + b;
      assert Run(s, a + b) == Run(s1, a[1..] + b);
      RunConcat(s1, a[1..], b);
    }
  }

  /** A `stop` during speech finalizes at the first poll after the
      utterance ends, whatever happens in between short of another `start`,
      and that poll is cleared. */
  lemma StopCompletesAfterUtterance(s: State, mid: seq<Event>)
    requires s.isSpeaking && NoStart(mid)
    requires forall k :: 0 <= k < |mid| ==> !mid[k].UtteranceEnd?
    ensures var r := Run(s, [Stop] + mid + [UtteranceEnd, PollSpeaking]);
      && r.metronome.None? && r.ttsInterval.None? && r.display == Hidden && !r.isSpeaking
      && r.polls + 1 == Run(s, [Stop] + mid).polls
      && (mid == [] ==> r.polls == s.polls && r.urls == s.urls && r.gallery == s.gallery)
  {
    var s1 := StopSession(s);
    RunConcat(s, [Stop], mid);
    TimersHeldWhileSpeaking(s1, mid);
    RunConcat(s, [Stop] + mid, [UtteranceEnd, PollSpeaking]);
  }

  /** The grace delay that `finalizeStop` starts ends in exactly one speech
      cancellation, and gives back the pending cancel it added. */
  lemma GraceCancelsFinalizedSpeech(s: State)
    ensures OnGraceElapsed(FinalizeStop(s)).effects == [CancelSpeech]
    ensures OnGraceElapsed(FinalizeStop(s)).state.pendingCancels == s.pendingCancels
    ensures OnGraceElapsed(FinalizeStop(s)).state == FinalizeStop(s).(pendingCancels := s.pendingCancels)
  {
  }

  /** The state after `n` beat intervals with no other event. */
  function Beats(s: State, n: nat): State
    decreases n
  {
    if n == 0 then s else Beats(OnTick(s).state, n - 1)
  }

  /** Delivering `n` `Tick` events is letting `n` beats pass. */
  lemma {:induction false} RunTicksIsBeats(s: State, n: nat)
    ensures Run(s, Ticks(n)) == Beats(s, n)
    decreases n
  {
    if n > 0 {
      assert Ticks(n)[0].Tick? && Ticks(n)[1..] == Ticks(n - 1);
      assert Run(s, Ticks(n)) == Run(OnTick(s).state, Ticks(n - 1));
      RunTicksIsBeats(OnTick(s).state, n - 1);
    }
  }

  /** A beat keeps the session well formed. */
  lemma TickPreservesValid(s: State)
    requires Valid(s)
    ensures Valid(OnTick(s).state)
  {
  }

  /** A tick fires every deferred stop with one beat left. */
  lemma TickFiresDueStops(s: State)
    requires !s.isSpeaking && 1 in s.deferredStops
    ensures var r := OnTick(s).state;
      r.metronome.None? && r.ttsInterval.None? && r.display == Hidden
  {
  }

  /** A tick brings every other deferred stop one beat closer and leaves the
      speaking flag alone. */
  lemma TickAdvancesPendingStops(s: State, k: nat)
    requires k > 1 && k in s.deferredStops
    ensures k - 1 in OnTick(s).state.deferredStops
    ensures OnTick(s).state.isSpeaking == s.isSpeaking
  {
  }

  /** A pending deferred stop with `k` beats left has stopped the session
      (when nothing is being spoken) once `k` more beats have passed. */
  lemma {:induction false} DeferredStopFires(s: State, k: nat)
    requires Valid(s) && !s.isSpeaking && k in s.deferredStops
    ensures var r := Beats(s, k);
      r.metronome.None? && r.ttsInterval.None? && r.display == Hidden
    decreases k
  {
    assert k > 0;
    if k == 1 {
      TickFiresDueStops(s);
    } else {
      TickAdvancesPendingStops(s, k);
      TickPreservesValid(s);
      DeferredStopFires(OnTick(s).state, k - 1);
    }
  }

  /** A tick with one deferred stop pending and more than one beat to go
      only brings it closer. */
  lemma TickWithLoneStop(s: State, c: nat)
    requires s.deferredStops == [c] && c > 1
    ensures var r := OnTick(s).state;
      && r.metronome == s.metronome && r.ttsInterval == s.ttsInterval
      && r.deferredStops == [c - 1] && r.isSpeaking == s.isSpeaking
  {
  }

  /** With a single deferred stop pending, the beats before it falls due
      leave the timers alone and bring it one beat closer each. */
  lemma {:induction false} LoneDeferredStopWaits(s: State, c: nat, j: nat)
    requires s.deferredStops == [c] && j < c
    ensures var r := Beats(s, j);
      && r.metronome == s.metronome && r.ttsInterval == s.ttsInterval
      && r.deferredStops == [c - j] && r.isSpeaking == s.isSpeaking
    decreases j
  {
    if j > 0 {
      TickWithLoneStop(s, c);
      LoneDeferredStopWaits(OnTick(s).state, c - 1, j - 1);
    }
  }

  /** Reaching the last slide with a positive slide interval leaves a well
      formed session with a stop pending for the grid delay. */
  lemma LastSlideSchedulesStop(s: State)
    requires Valid(s) && s.gallery.Some? && s.gallery.value.next > 0 && |s.urls| > 0
    ensures var s1 := OnSlideEnd(s, |s.urls| - 1);
      && Valid(s1) && s1.isSpeaking == s.isSpeaking
      && s1.metronome == s.metronome && s1.ttsInterval == s.ttsInterval
      && StopDelay(s.gallery.value.next, s.beatCount) in s1.deferredStops
      && (s.deferredStops == [] ==> s1.deferredStops == [StopDelay(s.gallery.value.next, s.beatCount)])
  {
  }

  /** End of sequence: on reaching the last slide with a positive slide
      interval, the session stops at the next slide boundary of the beat
      grid, `next - beatCount % next` beats later, between 1 and `next`
      beats, when nothing is being spoken. */
  lemma EndOfSequenceStopsOnGrid(s: State)
    requires Valid(s) && !s.isSpeaking && s.gallery.Some? && s.gallery.value.next > 0
    requires |s.urls| > 0
    ensures var next := s.gallery.value.next;
      var d := StopDelay(next, s.beatCount);
      var r := Run(OnSlideEnd(s, |s.urls| - 1), Ticks(d));
      && 1 <= d <= next && (s.beatCount + d) % next == 0
      && r.metronome.None? && r.ttsInterval.None?
  {
    var d := StopDelay(s.gallery.value.next, s.beatCount);
    var s1 := OnSlideEnd(s, |s.urls| - 1);
    LastSlideSchedulesStop(s);
    DeferredStopFires(s1, d);
    RunTicksIsBeats(s1, d);
  }

  /** ... and, when no other stop was pending, not a beat earlier: the
      timers keep running on every beat before that. */
  lemma EndOfSequenceRunsUntilGrid(s: State, j: nat)
    requires Valid(s) && s.gallery.Some? && s.gallery.value.next > 0 && |s.urls| > 0
    requires s.deferredStops == [] && j < StopDelay(s.gallery.value.next, s.beatCount)
    ensures var r := Run(OnSlideEnd(s, |s.urls| - 1), Ticks(j));
      r.metronome == s.metronome && r.ttsInterval == s.ttsInterval
  {
    var d := StopDelay(s.gallery.value.next, s.beatCount);
    var s1 := OnSlideEnd(s, |s.urls| - 1);
    LastSlideSchedulesStop(s);
    LoneDeferredStopWaits(s1, d, j);
    RunTicksIsBeats(s1, j);
  }

  /** With no slide interval (or a negative one), reaching the last slide
      stops at once: JavaScript's NaN or negative delay runs the timeout
      immediately. */
  lemma EndOfSequenceWithoutIntervalStopsNow(s: State)
    requires s.gallery.Some? && s.gallery.value.next <= 0 && |s.urls| > 0 && !s.isSpeaking
    ensures var r := OnSlideEnd(s, |s.urls| - 1);
      r.metronome.None? && r.ttsInterval.None? && r.display == Hidden
  {
  }

  /** The worked figures: slide interval 5 at beat 12 leaves 3 beats;
      slide interval 4 at beat 8 leaves a whole slide of 4. */
  lemma StopDelayExamples()
    ensures StopDelay(5, 12) == 3
    ensures StopDelay(4, 8) == 4
    ensures StopDelay(0, 7) == 0
    ensures StopDelay(-3, 7) == 0
  {
  }
}
