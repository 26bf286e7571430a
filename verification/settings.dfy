/** `applySettingsFromURL` and `applySettingsFromLink`: copying the `bpm` and
    `next` query parameters into the tempo and slide-interval input fields. */
module Settings {
  import opened Wrappers
  import Text

  /** A decoded query string: its name/value pairs in order. */
  type Query = seq<(string, string)>

  /** The two input fields the importer writes, holding raw text. */
  datatype Fields = Fields(beats: string, next: string)

  /** What the link importer reports to the user. */
  datatype Notice = Imported | InvalidLink | EmptyLink

  /** The position of the first pair named `key`, or |q| when there is none. */
  function FirstIndex(q: Query, key: string): (i: nat)
    ensures i <= |q|
    ensures i < |q| ==> q[i].0 == key
    ensures forall m :: 0 <= m < i ==> q[m].0 != key
  {
    if |q| == 0 || q[0].0 == key then 0 else 1 + FirstIndex(q[1..], key)
  }

  /** No pair before position `m` is named `key`. */
  predicate NotNamedBefore(q: Query, key: string, m: nat) {
    forall i :: 0 <= i < m && i < |q| ==> q[i].0 != key
  }

  /** `URLSearchParams.get`: the value of the first pair named `key`. */
  function Get(q: Query, key: string): (v: Option<string>)
    ensures v.None? <==> forall m :: 0 <= m < |q| ==> q[m].0 != key
    ensures v.Some? ==> exists m :: 0 <= m < |q| && q[m] == (key, v.value) && NotNamedBefore(q, key, m)
  {
    var i := FirstIndex(q, key);
    if i < |q| then Some(q[i].1) else None
  }

  /** `applySettingsFromURL`, given the page's decoded query string: each
      field is overwritten by its parameter when present and kept otherwise. */
  function ApplySettingsFromURL(f: Fields, q: Query): (r: Fields)
    ensures Get(q, "bpm").None? ==> r.beats == f.beats
    ensures Get(q, "bpm").Some? ==> r.beats == Get(q, "bpm").value
    ensures Get(q, "next").None? ==> r.next == f.next
    ensures Get(q, "next").Some? ==> r.next == Get(q, "next").value
    ensures (forall m :: 0 <= m < |q| ==> q[m].0 != "bpm" && q[m].0 != "next") ==> r == f
  {
    Fields(Get(q, "bpm").GetOr(f.beats), Get(q, "next").GetOr(f.next))
  }

  /** `applySettingsFromLink`. `parsed` is the decoded query string of the
      link, or `None` when the `URL` constructor rejects the link. */
  function ApplySettingsFromLink(f: Fields, parsed: Option<Query>): (r: (Fields, Notice))
    ensures parsed.None? <==> r.1 == InvalidLink
    ensures parsed.None? ==> r.0 == f
    ensures parsed.Some? ==> r.0 == ApplySettingsFromURL(f, parsed.value)
    ensures parsed.Some? ==> r.1 == Imported
  {
    match parsed
    case None => (f, InvalidLink)
    case Some(q) => (ApplySettingsFromURL(f, q), Imported)
  }

  /** The import button's click handler. The link is trimmed first; a blank
      link only reports `EmptyLink`, any other goes to the link importer.
      `parsed` is the decoded query string of the trimmed link, or `None`
      when the `URL` constructor rejects it. */
  function ApplyLinkClicked(f: Fields, link: string, parsed: Option<Query>): (r: (Fields, Notice))
    ensures r.1 == EmptyLink <==> Text.AllWhitespace(link)
    ensures r.1 == InvalidLink <==> !Text.AllWhitespace(link) && parsed.None?
    ensures r.1 != Imported ==> r.0 == f
    ensures r.1 == Imported ==> r.0 == ApplySettingsFromURL(f, parsed.value)
  {
    if Text.Trim(link) == [] then (f, EmptyLink) else ApplySettingsFromLink(f, parsed)
  }

  /** Importing the same parameters twice changes nothing the first import
      did not. */
  lemma ImportIdempotent(f: Fields, q: Query)
    ensures ApplySettingsFromURL(ApplySettingsFromURL(f, q), q) == ApplySettingsFromURL(f, q)
  {
  }

  /** Only the first `bpm` and the first `next` pair matter: pairs appended
      after both names already occur are ignored. */
  lemma {:induction false} LaterPairsIgnored(q: Query, extra: Query, key: string)
    requires exists m :: 0 <= m < |q| && q[m].0 == key
    ensures Get(q + extra, key) == Get(q, key)
  {
    var i := FirstIndex(q, key);
    var m :| 0 <= m < |q| && q[m].0 == key;
    assert i < |q|;
    FirstIndexPrefix(q, extra, key);
  }

  lemma {:induction false} FirstIndexPrefix(q: Query, extra: Query, key: string)
    requires FirstIndex(q, key) < |q|
    ensures FirstIndex(q + extra, key) == FirstIndex(q, key)
  {
    if q[0].0 != key {
      assert (q + extra)[1..] == q[1..] + extra;
      FirstIndexPrefix(q[1..], extra, key);
    }
  }

  /** The example link `?bpm=90&next=8` sets both fields. */
  lemma ExampleImport(f: Fields)
    ensures ApplySettingsFromLink(f, Some([("bpm", "90"), ("next", "8")])) == (Fields("90", "8"), Imported)
  {
  }
}
