/** The emoji filter of `strip_emojis` (osito.py): a character class of ten inclusive
    code-point ranges whose matches are deleted, followed by `strip()`. */
module Emoji {
  import opened Text

  /** The ten ranges of the character class, in source order. Several overlap, and the
      "enclosed characters" range U+24C2..U+1F251 spans most of the Basic Multilingual
      Plane above it (CJK, Hangul, ...), exactly as written. */
  const EmojiRanges: seq<(int, int)> := [
    (0x1F600, 0x1F64F),  // emoticons
    (0x1F300, 0x1F5FF),  // symbols & pictographs
    (0x1F680, 0x1F6FF),  // transport & map
    (0x1F1E0, 0x1F1FF),  // flags
    (0x2702, 0x27B0),    // dingbats
    (0x24C2, 0x1F251),   // enclosed characters
    (0x1F900, 0x1F9FF),  // supplemental symbols
    (0x1FA00, 0x1FA6F),  // chess symbols
    (0x1FA70, 0x1FAFF),  // symbols extended
    (0x2600, 0x26FF)     // misc symbols
  ]

  /** Membership in the character class. */
  predicate IsEmoji(c: char) {
    exists k :: 0 <= k < |EmojiRanges| && EmojiRanges[k].0 <= c as int <= EmojiRanges[k].1
  }

  predicate NotEmoji(c: char) {
    !IsEmoji(c)
  }

  /** A character that survives both the emoji filter and `strip()`/`\s+` handling
      as a visible character. */
  predicate Shown(c: char) {
    NotWs(c) && NotEmoji(c)
  }

  ghost predicate NoEmoji(s: string) {
    forall i :: 0 <= i < |s| ==> !IsEmoji(s[i])
  }

  /** The ten ranges merge into four disjoint intervals; in particular every code point
      below U+24C2 (ASCII, Latin-1 letters such as ñ, á, ¿, ¡, and all whitespace but
      U+3000) is never deleted. */
  lemma EmojiIntervals(c: char)
    ensures IsEmoji(c) <==>
      || 0x24C2 <= c as int <= 0x1F251
      || 0x1F300 <= c as int <= 0x1F64F
      || 0x1F680 <= c as int <= 0x1F6FF
      || 0x1F900 <= c as int <= 0x1FAFF
  {
    var n := c as int;
    if 0x24C2 <= n <= 0x1F251 { assert EmojiRanges[5].0 <= n <= EmojiRanges[5].1; }
    else if 0x1F300 <= n <= 0x1F5FF { assert EmojiRanges[1].0 <= n <= EmojiRanges[1].1; }
    else if 0x1F600 <= n <= 0x1F64F { assert EmojiRanges[0].0 <= n <= EmojiRanges[0].1; }
    else if 0x1F680 <= n <= 0x1F6FF { assert EmojiRanges[2].0 <= n <= EmojiRanges[2].1; }
    else if 0x1F900 <= n <= 0x1F9FF { assert EmojiRanges[6].0 <= n <= EmojiRanges[6].1; }
    else if 0x1FA00 <= n <= 0x1FA6F { assert EmojiRanges[7].0 <= n <= EmojiRanges[7].1; }
    else if 0x1FA70 <= n <= 0x1FAFF { assert EmojiRanges[8].0 <= n <= EmojiRanges[8].1; }
  }

  /** `strip_emojis(text)`: delete every character in the ranges, then `strip()`. */
  function StripEmojis(s: string): (r: string)
    ensures NoEmoji(r)
    ensures Trimmed(r)
    ensures forall c :: c in r ==> c in s
    ensures NoEmoji(s) && Trimmed(s) ==> r == s
    ensures WsPadding(Keep(s, NotEmoji), r)
    ensures Keep(r, NotWs) == Keep(s, Shown)
  {
    var kept := Keep(s, NotEmoji);
    TrimKeepsAll(kept, NotEmoji);
    KeepTrim(kept, NotWs);
    KeepBoth(s, NotEmoji, NotWs, Shown);
    Trim(kept)
  }
}
