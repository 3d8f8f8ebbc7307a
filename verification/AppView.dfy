/** The pure display logic of the front end: the confidence colour ladder,
    the keyword-driven recommendation colour and the data URI that shows
    the captured image. */
module AppView {
  import opened Wrappers

  const CONFIDENT: string := "text-green-600"
  const FAIRLY_CONFIDENT: string := "text-yellow-600"
  const UNSURE: string := "text-red-600"

  /** The confidence ladder: at least 0.8 is green, at least 0.6 yellow,
      anything lower red. */
  function ConfidenceColor(confidence: real): (r: string)
    ensures r == CONFIDENT <==> confidence >= 0.8
    ensures r == FAIRLY_CONFIDENT <==> 0.6 <= confidence < 0.8
    ensures r == UNSURE <==> confidence < 0.6
  {
    if confidence >= 0.8 then CONFIDENT
    else if confidence >= 0.6 then FAIRLY_CONFIDENT
    else UNSURE
  }

  /** The position of a confidence colour on the ladder, lowest first. */
  function ConfidenceRank(color: string): nat {
    if color == CONFIDENT then 2 else if color == FAIRLY_CONFIDENT then 1 else 0
  }

  /** A higher confidence never shows a lower colour. */
  lemma ConfidenceColorMonotone(a: real, b: real)
    requires a <= b
    ensures ConfidenceRank(ConfidenceColor(a)) <= ConfidenceRank(ConfidenceColor(b))
  {
  }

  /** `toLowerCase` on the ASCII letters; every other character is kept. */
  function ToLower(s: string): (r: string)
    ensures |r| == |s|
    ensures forall i :: 0 <= i < |s| ==> r[i] == LowerChar(s[i])
  {
    if |s| == 0 then [] else [LowerChar(s[0])] + ToLower(s[1..])
  }

  function LowerChar(c: char): (d: char)
    ensures !('A' <= d <= 'Z')
  {
    if 'A' <= c <= 'Z' then (c as int - 'A' as int + 'a' as int) as char else c
  }

  /** Lower-casing twice is lower-casing once. */
  lemma ToLowerIdempotent(s: string)
    ensures ToLower(ToLower(s)) == ToLower(s)
  {
    var t := ToLower(s);
    assert forall i :: 0 <= i < |t| ==> LowerChar(t[i]) == t[i];
  }

  /** `sub` occurs in `s` starting at index `i`. */
  ghost predicate OccursAt(s: string, sub: string, i: int) {
    0 <= i && i + |sub| <= |s| && s[i..i + |sub|] == sub
  }

  /** `String.prototype.includes`: `sub` occurs somewhere in `s`. */
  ghost predicate Occurs(s: string, sub: string) {
    exists i :: OccursAt(s, sub, i)
  }

  /** A left-to-right search for `sub` in `s`. */
  function Contains(s: string, sub: string): (r: bool)
    ensures r <==> Occurs(s, sub)
    decreases |s|
  {
    if |s| < |sub| then
      assert forall i :: !OccursAt(s, sub, i);
      false
    else if s[..|sub|] == sub then
      assert OccursAt(s, sub, 0);
      true
    else
      var r := Contains(s[1..], sub);
      forall i | 1 <= i && OccursAt(s, sub, i)
        ensures OccursAt(s[1..], sub, i - 1)
      {
        assert s[1..][i - 1..i - 1 + |sub|] == s[i..i + |sub|];
      }
      forall i | OccursAt(s[1..], sub, i)
        ensures OccursAt(s, sub, i + 1)
      {
        assert s[1..][i..i + |sub|] == s[i + 1..i + 1 + |sub|];
      }
      r
  }

  const FOLD_COLOR: string := "bg-red-500"
  const CALL_COLOR: string := "bg-blue-500"
  const AGGRESSIVE_COLOR: string := "bg-green-500"
  const ALL_IN_COLOR: string := "bg-purple-500"
  const NEUTRAL_COLOR: string := "bg-gray-500"

  /** The colour of a recommended action: the first keyword found in its
      lower-cased text decides, in the order fold, call, raise or bet,
      all-in. */
  function RecommendationColor(action: string): (r: string)
    ensures var a := ToLower(action);
      && (r == FOLD_COLOR <==> Occurs(a, "fold"))
      && (r == CALL_COLOR <==> !Occurs(a, "fold") && Occurs(a, "call"))
      && (r == AGGRESSIVE_COLOR <==>
            !Occurs(a, "fold") && !Occurs(a, "call") && (Occurs(a, "raise") || Occurs(a, "bet")))
      && (r == ALL_IN_COLOR <==>
            !Occurs(a, "fold") && !Occurs(a, "call") && !Occurs(a, "raise") && !Occurs(a, "bet")
            && Occurs(a, "all-in"))
      && (r == NEUTRAL_COLOR <==>
            !Occurs(a, "fold") && !Occurs(a, "call") && !Occurs(a, "raise") && !Occurs(a, "bet")
            && !Occurs(a, "all-in"))
  {
    var lower := ToLower(action);
    if Contains(lower, "fold") then FOLD_COLOR
    else if Contains(lower, "call") then CALL_COLOR
    else if Contains(lower, "raise") || Contains(lower, "bet") then AGGRESSIVE_COLOR
    else if Contains(lower, "all-in") then ALL_IN_COLOR
    else NEUTRAL_COLOR
  }

  /** The colour ignores ASCII case: an action and its lower-cased form get
      the same class. */
  lemma RecommendationColorIgnoresCase(action: string)
    ensures RecommendationColor(ToLower(action)) == RecommendationColor(action)
  {
    ToLowerIdempotent(action);
  }

  /** Two actions that lower-case alike get the same class. */
  lemma SameLowerSameColor(a: string, b: string)
    requires ToLower(a) == ToLower(b)
    ensures RecommendationColor(a) == RecommendationColor(b)
  {
  }

  const JPEG_DATA_URI_PREFIX: string := "data:image/jpeg;base64,"

  /** The image source the front end shows for a capture's base64 text. */
  function PreviewSource(payload: string): (src: string)
    ensures |src| == |JPEG_DATA_URI_PREFIX| + |payload|
    ensures src[..|JPEG_DATA_URI_PREFIX|] == JPEG_DATA_URI_PREFIX
    ensures src[|JPEG_DATA_URI_PREFIX|..] == payload
  {
    JPEG_DATA_URI_PREFIX + payload
  }

  /** The payload of a JPEG data URI, if `src` is one. */
  function PreviewPayload(src: string): (r: Option<string>)
    ensures r.Some? ==> PreviewSource(r.value) == src
    ensures r.None? ==> forall payload :: PreviewSource(payload) != src
  {
    if |src| >= |JPEG_DATA_URI_PREFIX| && src[..|JPEG_DATA_URI_PREFIX|] == JPEG_DATA_URI_PREFIX then
      Some(src[|JPEG_DATA_URI_PREFIX|..])
    else None
  }

  /** Stripping the prefix recovers exactly the payload. */
  lemma PreviewPayloadRoundTrip(payload: string)
    ensures PreviewPayload(PreviewSource(payload)) == Some(payload)
  {
  }
}
