/** Label translation: a display string is either literal text or, when it
    starts with '#', a key into the culture dictionary. */
module Labels {
  import opened Responses

  /** The culture dictionary: key -> localized text. A missing key reads as null. */
  type CultureDictionary = map<string, string>

  /** The marker that turns a label into a dictionary key. */
  const Marker: char := '#'

  /** .NET `char.IsWhiteSpace`: the Unicode space, line and paragraph separators
      and the control characters U+0009..U+000D and U+0085. */
  predicate IsWhiteSpace(c: char) {
    || ('\t' <= c <= '\r')
    || c == ' ' || c == '\U{0085}' || c == '\U{00A0}' || c == '\U{1680}'
    || ('\U{2000}' <= c <= '\U{200A}')
    || c == '\U{2028}' || c == '\U{2029}' || c == '\U{202F}' || c == '\U{205F}' || c == '\U{3000}'
  }

  /** True when every character of `s` is white space (so also for ""). */
  function AllWhiteSpace(s: string): (b: bool)
    ensures b <==> forall i :: 0 <= i < |s| ==> IsWhiteSpace(s[i])
  {
    if s == [] then true else IsWhiteSpace(s[0]) && AllWhiteSpace(s[1..])
  }

  /** `string.IsNullOrWhiteSpace`. */
  predicate IsNullOrWhiteSpace(s: Option<string>) {
    s.None? || AllWhiteSpace(s.value)
  }

  /** Umbraco's `IfNullOrWhiteSpace` extension: `s` unless it is blank, else `fallback`. */
  function IfNullOrWhiteSpace(s: Option<string>, fallback: string): (r: string)
    ensures IsNullOrWhiteSpace(s) ==> r == fallback
    ensures !IsNullOrWhiteSpace(s) ==> Some(r) == s
    ensures AllWhiteSpace(r) ==> r == fallback
  {
    if IsNullOrWhiteSpace(s) then fallback else s.value
  }

  /** The culture dictionary's indexer. */
  function Lookup(d: CultureDictionary, key: string): (r: Option<string>)
    ensures r.Some? <==> key in d
    ensures r.Some? ==> r.value == d[key]
  {
    if key in d then Some(d[key]) else None
  }

  /** True when `text` is a dictionary reference (`text.StartsWith("#")`). */
  predicate IsMarked(text: Option<string>)
    ensures IsMarked(text) <==> text.Some? && [Marker] <= text.value
  {
    text.Some? && |text.value| > 0 && text.value[0] == Marker
  }

  /** `TranslateItem` with the dictionary `d` in effect. */
  function Translate(d: CultureDictionary, text: Option<string>): (r: Option<string>)
    ensures text.None? ==> r.None?
    ensures text.Some? ==> r.Some?
    ensures !IsMarked(text) ==> r == text
    ensures IsMarked(text) ==>
              var key := text.value[1..];
              if key in d && !AllWhiteSpace(d[key]) then r == Some(d[key]) else r == Some(key)
  {
    if text.None? then None
    else if !IsMarked(text) then text
    else
      var key := text.value[1..];
      Some(IfNullOrWhiteSpace(Lookup(d, key), key))
  }

  /** A marked label never translates to blank text unless its own key is blank:
      the dictionary can only replace the key with a non-blank entry. */
  lemma TranslateBlankOnlyForBlankKey(d: CultureDictionary, text: Option<string>)
    requires IsMarked(text)
    ensures AllWhiteSpace(Translate(d, text).value) ==>
              Translate(d, text) == Some(text.value[1..]) && AllWhiteSpace(text.value[1..])
  {
    var key := text.value[1..];
    if key in d && !AllWhiteSpace(d[key]) {
      assert Translate(d, text) == Some(d[key]);
    }
  }

  /** Translating the marked form of a key with a dictionary that has no entry
      for it gives the key back: marking and translating is a round trip. */
  lemma {:induction false} MarkedKeyRoundTrip(d: CultureDictionary, key: string)
    requires key !in d || AllWhiteSpace(d[key])
    ensures Translate(d, Some([Marker] + key)) == Some(key)
  {
    assert ([Marker] + key)[1..] == key;
  }

  /** Translation only consults the entry for the label's own key: two
      dictionaries that agree on that key translate the label alike. */
  lemma TranslateUsesOnlyOwnKey(d1: CultureDictionary, d2: CultureDictionary, text: Option<string>)
    requires IsMarked(text)
    requires Lookup(d1, text.value[1..]) == Lookup(d2, text.value[1..])
    ensures Translate(d1, text) == Translate(d2, text)
  {
  }
}
