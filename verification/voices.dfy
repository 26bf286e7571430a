/** `populateVoiceList`: which synthesis voice the dropdown starts on. */
module Voices {

  /** A platform voice as the dropdown sees it. */
  datatype Voice = Voice(name: string, lang: string, isDefault: bool)

  const PreferredName: string := "Google UK English Female"
  const PreferredLang: string := "en-GB"

  predicate IsPreferred(v: Voice) {
    v.name == PreferredName && v.lang == PreferredLang
  }

  /** No voice after position `k` is the preferred one. */
  predicate NonePreferredAfter(voices: seq<Voice>, k: int) {
    forall i :: 0 <= i < |voices| && k < i ==> !IsPreferred(voices[i])
  }

  predicate NonePreferred(voices: seq<Voice>) {
    NonePreferredAfter(voices, -1)
  }

  /** Reference rule: the index of the last preferred voice, or -1. */
  function LastPreferred(voices: seq<Voice>): (k: int)
    ensures -1 <= k < |voices|
  {
    if |voices| == 0 then -1
    else if IsPreferred(voices[|voices| - 1]) then |voices| - 1
    else LastPreferred(voices[..|voices| - 1])
  }

  /** `LastPreferred` finds a preferred voice exactly when there is one, and
      no preferred voice follows the one it finds. */
  lemma {:induction false} LastPreferredIsLast(voices: seq<Voice>)
    ensures LastPreferred(voices) == -1 <==> NonePreferred(voices)
    ensures LastPreferred(voices) >= 0 ==> IsPreferred(voices[LastPreferred(voices)])
    ensures NonePreferredAfter(voices, LastPreferred(voices))
  {
    if |voices| > 0 && !IsPreferred(voices[|voices| - 1]) {
      var init := voices[..|voices| - 1];
      LastPreferredIsLast(init);
      var k := LastPreferred(init);
      assert LastPreferred(voices) == k;
      assert forall i :: 0 <= i < |init| ==> init[i] == voices[i];
    }
  }

  /** The dropdown population loop. It visits the voices in order, moves the
      selection to every preferred voice it meets, and falls back to the
      first option when nothing was selected; assigning 0 to `selectedIndex`
      of an empty dropdown leaves it at -1. */
  method PopulateVoiceList(voices: seq<Voice>) returns (selectedIndex: int)
    ensures -1 <= selectedIndex < |voices|
    ensures selectedIndex == -1 <==> |voices| == 0
    ensures NonePreferred(voices) ==> selectedIndex == if |voices| == 0 then -1 else 0
    ensures !NonePreferred(voices) ==> 0 <= selectedIndex && IsPreferred(voices[selectedIndex])
    ensures !NonePreferred(voices) ==> NonePreferredAfter(voices, selectedIndex)
  {
    selectedIndex := -1;
    var index := 0;
    while index < |voices|
      invariant 0 <= index <= |voices|
      invariant selectedIndex == LastPreferred(voices[..index])
    {
      assert voices[..index + 1][..index] == voices[..index];
      if IsPreferred(voices[index]) {
        selectedIndex := index;
      }
      index := index + 1;
    }
    assert voices[..index] == voices;
    LastPreferredIsLast(voices);
    if selectedIndex == -1 {
      selectedIndex := if |voices| > 0 then 0 else -1;
    }
  }
}
