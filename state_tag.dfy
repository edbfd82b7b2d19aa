/**
 * The state normalizer of the chat relay: it reads the trailing
 * `[state: <token>]` tag out of the model's reply and maps it onto one of
 * the five animation clips the scene can play, falling back to `dormant`
 * whenever the tag is missing or names no clip.
 *
 * The tag search is the regular expression `/\[state:\s*([^\]]+)\]/i`,
 * written out as the leftmost position where it matches.
 */
module StateTag {
  import opened Wrappers
  import opened JsText

  /** The five animation clip names, in the order the relay declares them. */
  const CLIPS: seq<string> := ["awakened", "resonant", "fractured", "transcendent", "dormant"]

  const Dormant: string := "dormant"

  /** Informal mood words and the clip each stands for; every clip name maps to itself. */
  const Synonyms: map<string, string> := map[
    "serene" := "resonant",
    "calm" := "resonant",
    "peaceful" := "resonant",
    "poetic" := "transcendent",
    "lyrical" := "transcendent",
    "spiritual" := "transcendent",
    "anxious" := "fractured",
    "tense" := "fractured",
    "chaotic" := "fractured",
    "sleepy" := "dormant",
    "asleep" := "dormant",
    "neutral" := "awakened",
    "baseline" := "awakened",
    "awakened" := "awakened",
    "resonant" := "resonant",
    "fractured" := "fractured",
    "transcendent" := "transcendent",
    "dormant" := "dormant"
  ]

  /** The literal part of the pattern before the capture group. */
  const Keyword: string := "[state:"

  /** `[state:` starts at `i`, letters compared without regard to case. */
  predicate KeywordAt(text: string, i: nat) {
    i + |Keyword| <= |text| && Lower(text[i..i + |Keyword|]) == Keyword
  }

  /** The first `]` at or after position `p`, if any. */
  function CloseFrom(text: string, p: nat): Option<nat>
    decreases |text| - p
  {
    if p >= |text| then None
    else if text[p] == ']' then Some(p)
    else CloseFrom(text, p + 1)
  }

  /** `CloseFrom` finds the first `]` from `p` on, and nothing only when there is none. */
  lemma {:induction false} CloseFromIsFirstBracket(text: string, p: nat)
    ensures var r := CloseFrom(text, p);
      (r.Some? ==> p <= r.value < |text| && text[r.value] == ']') &&
      (r.Some? ==> forall k :: p <= k < r.value ==> text[k] != ']') &&
      (r.None? ==> forall k :: p <= k < |text| ==> text[k] != ']')
    decreases |text| - p
  {
    if p < |text| && text[p] != ']' {
      CloseFromIsFirstBracket(text, p + 1);
    }
  }

  /**
   * The pattern matches at `i`: the keyword, then at least one character
   * other than `]` (the greedy `\s*` gives back what `[^\]]+` needs), then `]`.
   */
  predicate MatchesAt(text: string, i: nat) {
    KeywordAt(text, i) &&
    var c := CloseFrom(text, i + |Keyword|);
    c.Some? && c.value > i + |Keyword|
  }

  /** Everything between `[state:` and the closing bracket of a match at `i`. */
  function Region(text: string, i: nat): (r: string)
    requires MatchesAt(text, i)
    ensures |r| > 0
    ensures i + |Keyword| + |r| < |text| && text[i + |Keyword| + |r|] == ']'
    ensures r == text[i + |Keyword|..i + |Keyword| + |r|]
    ensures forall k :: 0 <= k < |r| ==> r[k] != ']'
  {
    CloseFromIsFirstBracket(text, i + |Keyword|);
    text[i + |Keyword|..CloseFrom(text, i + |Keyword|).value]
  }

  /** The leftmost match at or after `from`, as `String.prototype.match` finds it. */
  function FindTag(text: string, from: nat): Option<nat>
    decreases |text| - from
  {
    if from + |Keyword| > |text| then None
    else if MatchesAt(text, from) then Some(from)
    else FindTag(text, from + 1)
  }

  /** `FindTag` finds the leftmost match from `from` on, and nothing only when there is none. */
  lemma {:induction false} FindTagIsLeftmost(text: string, from: nat)
    ensures var r := FindTag(text, from);
      (r.Some? ==> from <= r.value && MatchesAt(text, r.value)) &&
      (r.Some? ==> forall j :: from <= j < r.value ==> !MatchesAt(text, j)) &&
      (r.None? ==> forall j :: from <= j ==> !MatchesAt(text, j))
    decreases |text| - from
  {
    if from + |Keyword| <= |text| && !MatchesAt(text, from) {
      FindTagIsLeftmost(text, from + 1);
    }
  }

  /**
   * The capture group of `\s*([^\]]+)` over a region: `\s*` takes the
   * leading whitespace, but leaves the last character to the group when the
   * region is whitespace only.
   */
  function Capture(region: string): (g: string)
    requires |region| > 0
    ensures 0 < |g| <= |region| && g == region[|region| - |g|..]
    ensures forall k :: 0 <= k < |region| - |g| ==> IsSpace(region[k])
  {
    TrimStartDropsLeadingSpace(region);
    var rest := TrimStart(region);
    if rest != [] then rest else region[|region| - 1..]
  }

  /** The raw token: the capture group lower-cased and trimmed, or `None` when nothing matches. */
  function RawToken(text: string): Option<string> {
    FindTagIsLeftmost(text, 0);
    match FindTag(text, 0)
    case None => None
    case Some(i) => Some(Trim(Lower(Capture(Region(text, i)))))
  }

  /** The synonym lookup `map[raw] || raw`: an unknown token passes through unchanged. */
  function Lookup(raw: string): string {
    if raw in Synonyms then Synonyms[raw] else raw
  }

  /** `raw && (map[raw] || raw)`, then any value outside the clip list is replaced by `dormant`. */
  function Normalize(raw: Option<string>): (r: string)
    ensures r in CLIPS
  {
    var normalized := if raw.None? || raw.value == [] then None else Some(Lookup(raw.value));
    if normalized.Some? && normalized.value in CLIPS then normalized.value else Dormant
  }

  /** The reply's state tag normalized to a clip name. Total: any text yields one of the five clips. */
  function ExtractReplyAndState(text: string): (r: string)
    ensures r in CLIPS
  {
    Normalize(RawToken(text))
  }

  // ---------------------------------------------------------------------
  // The synonym table

  /** Every entry of the table names a clip. */
  lemma SynonymsNameClips()
    ensures forall w :: w in Synonyms ==> Synonyms[w] in CLIPS
  {
  }

  /** Every clip name is in the table and maps to itself. */
  lemma ClipsMapToThemselves()
    ensures forall c :: c in CLIPS ==> c in Synonyms && Synonyms[c] == c
  {
  }

  // ---------------------------------------------------------------------
  // What the result is

  /**
   * The normalizer is a table lookup on the token with `dormant` as the
   * default: the pass-through of unknown tokens and the clip guard together
   * never let anything but a table entry out.
   */
  lemma NormalizeIsTableLookup(raw: Option<string>)
    ensures Normalize(raw) == if raw.Some? && raw.value in Synonyms then Synonyms[raw.value] else Dormant
  {
    SynonymsNameClips();
    ClipsMapToThemselves();
  }

  /** A token the table does not know, the empty token included, yields `dormant`. */
  lemma UnknownTokenIsDormant(text: string)
    requires RawToken(text).Some? && RawToken(text).value !in Synonyms
    ensures ExtractReplyAndState(text) == Dormant
  {
    NormalizeIsTableLookup(RawToken(text));
  }

  /** Text where the pattern matches nowhere yields `dormant`. */
  lemma NoTagIsDormant(text: string)
    requires forall i: nat :: !MatchesAt(text, i)
    ensures ExtractReplyAndState(text) == Dormant
  {
    FindTagIsLeftmost(text, 0);
  }

  /** Text without a `]` has no tag, so it yields `dormant`. */
  lemma NoClosingBracketIsDormant(text: string)
    requires forall k :: 0 <= k < |text| ==> text[k] != ']'
    ensures ExtractReplyAndState(text) == Dormant
  {
    forall i: nat ensures !MatchesAt(text, i) {
      CloseFromIsFirstBracket(text, i + |Keyword|);
    }
    NoTagIsDormant(text);
  }

  /** The keyword cannot start at a character other than `[`. */
  lemma KeywordStartsWithBracket(text: string, i: nat)
    requires i < |text| && text[i] != '['
    ensures !KeywordAt(text, i)
  {
    if i + |Keyword| <= |text| {
      assert Lower(text[i..i + |Keyword|])[0] == LowerChar(text[i]);
    }
  }

  /** Text without a `[` has no tag, so it yields `dormant`. */
  lemma NoOpeningBracketIsDormant(text: string)
    requires forall k :: 0 <= k < |text| ==> text[k] != '['
    ensures ExtractReplyAndState(text) == Dormant
  {
    forall i: nat | i < |text| ensures !KeywordAt(text, i) {
      KeywordStartsWithBracket(text, i);
    }
    NoTagIsDormant(text);
  }

  /** The greedy `\s*` only moves whitespace out of the group, which the trim removes anyway. */
  lemma {:induction false} CaptureTrimsLikeRegion(region: string)
    requires |region| > 0
    ensures Trim(Lower(Capture(region))) == Trim(Lower(region))
  {
    var g := Capture(region);
    var w := region[..|region| - |g|];
    assert region == w + g;
    LowerAppend(w, g);
    assert forall k :: 0 <= k < |Lower(w)| ==> IsSpace(Lower(w)[k]);
    TrimStartSkipsSpaces(Lower(w), Lower(g));
  }

  /**
   * Only the leftmost tag counts: its region, lower-cased and trimmed,
   * decides the result, whatever follows it.
   */
  lemma LeftmostTagDecides(text: string, i: nat)
    requires MatchesAt(text, i)
    requires forall j: nat :: j < i ==> !MatchesAt(text, j)
    ensures RawToken(text) == Some(Trim(Lower(Region(text, i))))
    ensures ExtractReplyAndState(text) ==
      var t := Trim(Lower(Region(text, i)));
      if t in Synonyms then Synonyms[t] else Dormant
  {
    FindTagIsLeftmost(text, 0);
    var f := FindTag(text, 0);
    assert f == Some(i);
    CaptureTrimsLikeRegion(Region(text, i));
    NormalizeIsTableLookup(RawToken(text));
  }

  /**
   * A tag after plain text (no `[` before it) is the one that counts, with
   * `state` in any case and any whitespace around the word.
   */
  lemma TagAfterPlainText(prefix: string, tag: string, suffix: string, keyword: string, word: string)
    requires forall k :: 0 <= k < |prefix| ==> prefix[k] != '['
    requires tag == keyword + word + "]"
    requires |keyword| == |Keyword| && Lower(keyword) == Keyword
    requires |word| > 0 && forall k :: 0 <= k < |word| ==> word[k] != ']'
    ensures RawToken(prefix + tag + suffix) == Some(Trim(Lower(word)))
  {
    var text := prefix + tag + suffix;
    var i := |prefix|;
    var p := i + |Keyword|;
    assert text[i..p] == tag[..|Keyword|] == keyword;
    assert KeywordAt(text, i);
    forall k | p <= k < p + |word| ensures text[k] != ']' {
      assert text[k] == tag[k - i] == word[k - p];
    }
    assert text[p + |word|] == tag[|tag| - 1] == ']';
    CloseFromIsFirstBracket(text, p);
    var c := CloseFrom(text, p);
    assert c == Some(p + |word|);
    assert MatchesAt(text, i);
    assert Region(text, i) == text[p..p + |word|] == word;
    forall j: nat | j < i ensures !MatchesAt(text, j) {
      assert text[j] == prefix[j];
      KeywordStartsWithBracket(text, j);
    }
    LeftmostTagDecides(text, i);
  }

  lemma {:induction false} CloseFromShifted(prefix: string, text: string, p: nat)
    ensures var c := CloseFrom(prefix + text, |prefix| + p);
      match CloseFrom(text, p)
      case None => c.None?
      case Some(q) => c == Some(|prefix| + q)
    decreases |text| - p
  {
    if p < |text| {
      assert (prefix + text)[|prefix| + p] == text[p];
      if text[p] != ']' {
        CloseFromShifted(prefix, text, p + 1);
      }
    }
  }

  /** A match inside `text` is still a match once text is put in front. */
  lemma MatchesAtShifted(prefix: string, text: string, j: nat)
    ensures MatchesAt(prefix + text, |prefix| + j) <==> MatchesAt(text, j)
  {
    var whole := prefix + text;
    var i := |prefix| + j;
    if j + |Keyword| <= |text| {
      assert whole[i..i + |Keyword|] == text[j..j + |Keyword|];
    }
    CloseFromShifted(prefix, text, j + |Keyword|);
  }

  /** ... and its region is the same. */
  lemma RegionShifted(prefix: string, text: string, j: nat)
    requires MatchesAt(text, j)
    ensures MatchesAt(prefix + text, |prefix| + j)
    ensures Region(prefix + text, |prefix| + j) == Region(text, j)
  {
    MatchesAtShifted(prefix, text, j);
    CloseFromShifted(prefix, text, j + |Keyword|);
    CloseFromIsFirstBracket(text, j + |Keyword|);
    var whole, i := prefix + text, |prefix| + j;
    var q := CloseFrom(text, j + |Keyword|).value;
    assert whole[i + |Keyword|..|prefix| + q] == text[j + |Keyword|..q];
  }

  /** The search steps over positions where nothing matches. */
  lemma {:induction false} FindTagSkipsUnmatched(text: string, start: nat, stop: nat)
    requires start <= stop
    requires forall i: nat :: start <= i < stop ==> !MatchesAt(text, i)
    ensures FindTag(text, start) == FindTag(text, stop)
  {
    if start < stop {
      FindTagSkipsUnmatched(text, start, stop - 1);
      assert !MatchesAt(text, stop - 1);
    }
  }

  /** Near the end of the rest, too close for a match, neither search finds anything. */
  lemma FindTagShiftedAtEnd(prefix: string, text: string, j: nat)
    requires j + |Keyword| > |text|
    ensures FindTag(text, j).None? && FindTag(prefix + text, |prefix| + j).None?
  {
  }

  /** A match of the rest at `j` is found behind the leading text at `|prefix| + j`. */
  lemma FindTagShiftedHere(prefix: string, text: string, j: nat)
    requires j + |Keyword| <= |text| && MatchesAt(text, j)
    ensures FindTag(text, j) == Some(j) && FindTag(prefix + text, |prefix| + j) == Some(|prefix| + j)
  {
    MatchesAtShifted(prefix, text, j);
  }

  /** Without a match at `j`, both searches move on by one. */
  lemma FindTagShiftedOn(prefix: string, text: string, j: nat)
    requires j + |Keyword| <= |text| && !MatchesAt(text, j)
    ensures FindTag(text, j) == FindTag(text, j + 1)
    ensures FindTag(prefix + text, |prefix| + j) == FindTag(prefix + text, |prefix| + (j + 1))
  {
    MatchesAtShifted(prefix, text, j);
  }

  /** Searching the rest of the text from `j` finds what searching behind the leading text finds, shifted. */
  lemma {:induction false} FindTagShifted(prefix: string, text: string, j: nat)
    ensures var g := FindTag(text, j);
      FindTag(prefix + text, |prefix| + j) == if g.None? then None else Some(|prefix| + g.value)
    decreases |text| - j
  {
    if j + |Keyword| > |text| {
      FindTagShiftedAtEnd(prefix, text, j);
    } else if MatchesAt(text, j) {
      FindTagShiftedHere(prefix, text, j);
    } else {
      FindTagShiftedOn(prefix, text, j);
      FindTagShifted(prefix, text, j + 1);
    }
  }

  /** Two texts whose leftmost matches cover the same region, or that have none, give the same token. */
  lemma SameRegionSameToken(a: string, b: string)
    requires FindTag(a, 0).None? <==> FindTag(b, 0).None?
    requires FindTag(a, 0).Some? ==>
      MatchesAt(a, FindTag(a, 0).value) && MatchesAt(b, FindTag(b, 0).value) &&
      Region(a, FindTag(a, 0).value) == Region(b, FindTag(b, 0).value)
    ensures RawToken(a) == RawToken(b)
  {
  }

  /** Past leading text in which no tag starts, the search finds the same tag, shifted. */
  lemma {:induction false} UnmatchedPrefixShiftsSearch(prefix: string, text: string)
    requires forall i: nat :: i < |prefix| ==> !MatchesAt(prefix + text, i)
    ensures var g := FindTag(text, 0);
      FindTag(prefix + text, 0) == if g.None? then None else Some(|prefix| + g.value)
  {
    var whole := prefix + text;
    FindTagSkipsUnmatched(whole, 0, |prefix|);
    FindTagShifted(prefix, text, 0);
    assert FindTag(whole, 0) == FindTag(whole, |prefix| + 0);
  }

  /** A search that finds the same tag, shifted past the leading text, gives the same token. */
  lemma {:induction false} ShiftedSearchSameToken(prefix: string, text: string)
    requires var g := FindTag(text, 0);
      FindTag(prefix + text, 0) == if g.None? then None else Some(|prefix| + g.value)
    ensures RawToken(prefix + text) == RawToken(text)
  {
    FindTagIsLeftmost(text, 0);
    match FindTag(text, 0)
    case None =>
      SameRegionSameToken(prefix + text, text);
    case Some(q) =>
      RegionShifted(prefix, text, q);
      SameRegionSameToken(prefix + text, text);
  }

  /** Leading text in which no tag starts does not change the token. */
  lemma {:induction false} UnmatchedPrefixKeepsToken(prefix: string, text: string)
    requires forall i: nat :: i < |prefix| ==> !MatchesAt(prefix + text, i)
    ensures RawToken(prefix + text) == RawToken(text)
  {
    UnmatchedPrefixShiftsSearch(prefix, text);
    ShiftedSearchSameToken(prefix, text);
  }

  /** ... nor, therefore, the clip. */
  lemma UnmatchedPrefixIsIgnored(prefix: string, text: string)
    requires forall i: nat :: i < |prefix| ==> !MatchesAt(prefix + text, i)
    ensures ExtractReplyAndState(prefix + text) == ExtractReplyAndState(text)
  {
    UnmatchedPrefixKeepsToken(prefix, text);
  }

  /**
   * `[state:]` with nothing before the bracket is not a tag: the search moves
   * on and the rest of the text decides.
   */
  lemma EmptyTagIsSkipped(text: string)
    ensures ExtractReplyAndState("[state:]" + text) == ExtractReplyAndState(text)
  {
    var whole := "[state:]" + text;
    forall i: nat | i < 8 ensures !MatchesAt(whole, i) {
      if i == 0 {
        assert whole[|Keyword|] == ']';
        assert CloseFrom(whole, |Keyword|) == Some(|Keyword|);
      } else {
        KeywordStartsWithBracket(whole, i);
      }
    }
    UnmatchedPrefixIsIgnored("[state:]", text);
  }

  /** A tag holding only whitespace, such as `[state:   ]`, yields `dormant`. */
  lemma BlankTagIsDormant(prefix: string, tag: string, suffix: string, keyword: string, blank: string)
    requires forall k :: 0 <= k < |prefix| ==> prefix[k] != '['
    requires tag == keyword + blank + "]"
    requires |keyword| == |Keyword| && Lower(keyword) == Keyword
    requires |blank| > 0 && forall k :: 0 <= k < |blank| ==> IsSpace(blank[k])
    ensures ExtractReplyAndState(prefix + tag + suffix) == Dormant
  {
    TagAfterPlainText(prefix, tag, suffix, keyword, blank);
    var low := Lower(blank);
    TrimStartDropsLeadingSpace(low);
    assert TrimStart(low) == [];
  }

  // ---------------------------------------------------------------------
  // Case-insensitivity

  lemma {:induction false} CloseFromLower(text: string, p: nat)
    ensures CloseFrom(Lower(text), p) == CloseFrom(text, p)
    decreases |text| - p
  {
    if p < |text| && text[p] != ']' {
      CloseFromLower(text, p + 1);
    }
  }

  lemma MatchesAtLower(text: string, i: nat)
    ensures MatchesAt(Lower(text), i) <==> MatchesAt(text, i)
    ensures MatchesAt(text, i) ==> Region(Lower(text), i) == Lower(Region(text, i))
  {
    if i + |Keyword| <= |text| {
      LowerSlice(text, i, i + |Keyword|);
      LowerIdempotent(text[i..i + |Keyword|]);
    }
    CloseFromLower(text, i + |Keyword|);
    CloseFromIsFirstBracket(text, i + |Keyword|);
    if MatchesAt(text, i) {
      LowerSlice(text, i + |Keyword|, CloseFrom(text, i + |Keyword|).value);
    }
  }

  /**
   * Upper- or lower-casing the reply never changes the clip: the keyword is
   * matched without regard to case and the token is lower-cased.
   */
  lemma ExtractIgnoresCase(text: string)
    ensures ExtractReplyAndState(Lower(text)) == ExtractReplyAndState(text)
  {
    var low := Lower(text);
    forall j: nat ensures MatchesAt(low, j) <==> MatchesAt(text, j) {
      MatchesAtLower(text, j);
    }
    FindTagIsLeftmost(text, 0);
    FindTagIsLeftmost(low, 0);
    var f := FindTag(text, 0);
    var g := FindTag(low, 0);
    assert f == g;
    if f.Some? {
      var i := f.value;
      MatchesAtLower(text, i);
      var region := Region(text, i);
      CaptureTrimsLikeRegion(region);
      CaptureTrimsLikeRegion(Lower(region));
      LowerIdempotent(region);
    }
  }

  // ---------------------------------------------------------------------
  // Worked replies

  /**
   * A tag after plain text yields the clip the table gives its word, with
   * `state` in any case and any case and surrounding whitespace in the word.
   */
  lemma SynonymTagYieldsItsClip(prefix: string, tag: string, suffix: string, keyword: string, word: string)
    requires forall k :: 0 <= k < |prefix| ==> prefix[k] != '['
    requires tag == keyword + word + "]"
    requires |keyword| == |Keyword| && Lower(keyword) == Keyword
    requires |word| > 0 && forall k :: 0 <= k < |word| ==> word[k] != ']'
    requires Trim(Lower(word)) in Synonyms
    ensures ExtractReplyAndState(prefix + tag + suffix) == Synonyms[Trim(Lower(word))]
  {
    TagAfterPlainText(prefix, tag, suffix, keyword, word);
    NormalizeIsTableLookup(Some(Trim(Lower(word))));
  }

  /** The word `   Serene ` lower-cases and trims to `serene`. */
  lemma SereneWordTrims()
    ensures Trim(Lower("   Serene ")) == "serene"
  {
    SereneLowered();
  }

  lemma SereneLowered()
    ensures Lower("   Serene ") == "   serene "
  {
    var w, l := "   Serene ", "   serene ";
    forall k | 0 <= k < |w| ensures Lower(w)[k] == l[k] {
      assert w[k] == 'S' || w[k] == l[k];
    }
  }

  /** `[STATE:` is the keyword in capitals. */
  lemma CapitalKeyword()
    ensures Lower("[STATE:") == Keyword
  {
  }

  /** The tag `[STATE:   Serene ]` is the keyword, the word and the closing bracket. */
  lemma SereneTagParts()
    ensures "[STATE:   Serene ]" == "[STATE:" + "   Serene " + "]"
    ensures forall k :: 0 <= k < |"   Serene "| ==> "   Serene "[k] != ']'
  {
  }

  /** `serene` is a synonym of `resonant`. */
  lemma SereneMeansResonant()
    ensures "serene" in Synonyms && Synonyms["serene"] == "resonant"
  {
  }

  /** `[STATE:   Serene ]` after plain prose yields `resonant`, whatever follows. */
  lemma SereneInCapitalsIsResonant(prefix: string, suffix: string)
    requires forall k :: 0 <= k < |prefix| ==> prefix[k] != '['
    ensures ExtractReplyAndState(prefix + "[STATE:   Serene ]" + suffix) == "resonant"
  {
    CapitalKeyword();
    SereneTagParts();
    SereneWordTrims();
    SereneMeansResonant();
    SynonymTagYieldsItsClip(prefix, "[STATE:   Serene ]", suffix, "[STATE:", "   Serene ");
  }
}
