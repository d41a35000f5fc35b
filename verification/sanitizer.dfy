/** The clean-up tail of `generate_response` (osito.py): what happens to the language
    model's raw reply before it is spoken and remembered. */
module Sanitizer {
  import opened Text
  import opened Emoji

  /** Leading labels removed by the single ordered pass, in source order. */
  const LabelPrefixes: seq<string> := ["Osito:", "osito:", "**"]

  /** What is said when nothing survives the clean-up. */
  const DefaultReply: string := "Hola! Como estas?"

  /** Text that can be spoken as it is: non-empty, no asterisk, no character in the
      emoji ranges, no surrounding whitespace, single plain spaces only. */
  ghost predicate Clean(s: string) {
    && s != []
    && '*' !in s
    && NoEmoji(s)
    && Trimmed(s)
    && Normalized(s)
  }

  /** One step of the pass: `if t.startswith(p): t = t[len(p):].strip()`. */
  function StripLabel(s: string, p: string): (r: string)
    ensures forall c :: c in r ==> c in s
    ensures Trimmed(s) ==> Trimmed(r)
    ensures StartsWith(s, p) ==> Trimmed(r) && |r| <= |s| - |p|
    ensures StartsWith(s, p) ==> WsPadding(s[|p|..], r)
    ensures !StartsWith(s, p) ==> r == s
  {
    if StartsWith(s, p) then Trim(s[|p|..]) else s
  }

  /** On stripped text one step only cuts from the front: what is left is a suffix. */
  lemma LabelStepSuffix(s: string, p: string)
    requires Trimmed(s)
    ensures IsSuffix(StripLabel(s, p), s)
  {
    if StartsWith(s, p) {
      var rest := s[|p|..];
      assert rest == [] || rest[|rest| - 1] == s[|s| - 1];
      TrimSuffix(rest);
    }
  }

  /** The whole pass: each prefix is tried once, in order, on what the previous
      step left; a prefix exposed by a later step is not tried again. */
  function StripLabels(s: string, ps: seq<string>): (r: string)
    ensures forall c :: c in r ==> c in s
    ensures Trimmed(s) ==> Trimmed(r)
    ensures (forall k :: 0 <= k < |ps| ==> !StartsWith(s, ps[k])) ==> r == s
    decreases |ps|
  {
    if ps == [] then s else StripLabels(StripLabel(s, ps[0]), ps[1..])
  }

  /** On stripped text the pass only cuts from the front: what is left is a suffix. */
  lemma LabelPassSuffix(s: string)
    requires Trimmed(s)
    ensures IsSuffix(StripLabels(s, LabelPrefixes), s)
  {
    StripLabelsSteps(s);
    ThreeStepsSuffix(s, "Osito:", "osito:", "**");
  }

  lemma ThreeStepsSuffix(s: string, p: string, q: string, o: string)
    requires Trimmed(s)
    ensures IsSuffix(StripLabel(StripLabel(StripLabel(s, p), q), o), s)
  {
    var s1 := StripLabel(s, p);
    var s2 := StripLabel(s1, q);
    var s3 := StripLabel(s2, o);
    LabelStepSuffix(s, p);
    LabelStepSuffix(s1, q);
    LabelStepSuffix(s2, o);
    SuffixOfSuffix(s, s1, s2);
    SuffixOfSuffix(s, s2, s3);
    assert StripLabel(StripLabel(StripLabel(s, p), q), o) == s3;
  }

  /** `t.replace("**", "").replace("*", "")` */
  function DeleteStars(s: string): (r: string)
    ensures '*' !in r
    ensures forall c :: c in r ==> c in s
    ensures '*' !in s ==> r == s
  {
    DeleteStarsIsKeep(s);
    RemoveAll(RemoveAll(s, "**"), "*")
  }

  /** A character the clean-up always deletes. */
  predicate Inert(c: char) {
    IsWs(c) || c == '*' || IsEmoji(c)
  }

  /** A character the clean-up never deletes. */
  predicate Visible(c: char) {
    !Inert(c)
  }

  /** Asterisks, emoji and surrounding whitespace deleted, whitespace runs collapsed:
      the visible characters of `t` survive, in order, separated by single spaces. */
  function Scrub(t: string): (u: string)
    ensures Trimmed(u) && Normalized(u)
    ensures forall c :: c in u ==> c == ' ' || (c in t && !Inert(c))
    ensures Keep(u, NotWs) == Keep(t, Visible)
  {
    var starless := DeleteStars(t);
    var plain := StripEmojis(starless);
    var collapsed := Collapse(plain);
    TrimKeepsNormalized(collapsed);
    CollapseContents(plain);
    KeepTrim(collapsed, NotWs);
    DeleteStarsIsKeep(t);
    KeepBoth(t, NotStar, Shown, Visible);
    Trim(collapsed)
  }

  /** Text made only of whitespace, asterisks and emoji scrubs to nothing. */
  lemma ScrubAllInert(t: string)
    ensures (forall i :: 0 <= i < |t| ==> Inert(t[i])) ==> Scrub(t) == []
  {
    var u := Scrub(t);
    if u != [] {
      var c := u[0];
      assert c in u && c != ' ';
      var j :| 0 <= j < |t| && t[j] == c;
      assert !Inert(t[j]);
    }
  }

  lemma ScrubClean(t: string)
    ensures var u := Scrub(t); u != [] ==> Clean(u)
  {
    var u := Scrub(t);
    assert !IsEmoji(' ') by { EmojiIntervals(' '); }
    forall i | 0 <= i < |u|
      ensures !IsEmoji(u[i]) && u[i] != '*'
    {
      var c := u[i];
      assert c in u;
      assert c == ' ' || !Inert(c);
    }
  }

  /** Everything after the label pass, with the fallback for an empty result. */
  function Finish(t: string): (r: string)
    ensures Clean(r)
    ensures r == DefaultReply || forall i :: 0 <= i < |r| ==> r[i] == ' ' || r[i] in t
    ensures (forall i :: 0 <= i < |t| ==> Inert(t[i])) ==> r == DefaultReply
    ensures Keep(t, Visible) == [] ==> r == DefaultReply
    ensures Keep(t, Visible) != [] ==> Keep(r, NotWs) == Keep(t, Visible)
  {
    var u := Scrub(t);
    ScrubAllInert(t);
    if u == [] then
      DefaultReplyClean();
      DefaultReply
    else
      assert u[0] in Keep(u, NotWs);
      ScrubClean(t);
      u
  }

  /** The reply as `generate_response` returns it on a successful backend call. */
  function Sanitize(raw: string): (r: string)
    ensures Clean(r)
    ensures r == DefaultReply || forall i :: 0 <= i < |r| ==> r[i] == ' ' || r[i] in raw
    ensures (forall i :: 0 <= i < |raw| ==> Inert(raw[i])) ==> r == DefaultReply
    ensures var t := StripLabels(Trim(raw), LabelPrefixes);
      && (Keep(t, Visible) == [] ==> r == DefaultReply)
      && (Keep(t, Visible) != [] ==> Keep(r, NotWs) == Keep(t, Visible))
  {
    var t := StripLabels(Trim(raw), LabelPrefixes);
    CharsFrom(t, raw);
    Finish(t)
  }

  /** Facts that carry over from a text to one whose characters all occur in it. */
  lemma CharsFrom(t: string, raw: string)
    requires forall c :: c in t ==> c in raw
    ensures (forall i :: 0 <= i < |raw| ==> Inert(raw[i])) ==> forall i :: 0 <= i < |t| ==> Inert(t[i])
    ensures forall r: string :: (forall i :: 0 <= i < |r| ==> r[i] == ' ' || r[i] in t) ==>
                                 (forall i :: 0 <= i < |r| ==> r[i] == ' ' || r[i] in raw)
  {
    if forall i :: 0 <= i < |raw| ==> Inert(raw[i]) {
      forall i | 0 <= i < |t|
        ensures Inert(t[i])
      {
        assert t[i] in raw;
      }
    }
  }

  /** The characters a collapse leaves are spaces or characters of its input. */
  lemma CollapseContents(s: string)
    ensures forall c :: c in Collapse(s) ==> c == ' ' || (c in s && !IsWs(c))
  {
    var r := Collapse(s);
    forall c | c in r
      ensures c == ' ' || (c in s && !IsWs(c))
    {
      if !IsWs(c) {
        assert c in Keep(r, NotWs);
      }
    }
  }

  /** Printable ASCII without asterisks, no space followed by another. */
  ghost predicate PlainAscii(s: string) {
    && (forall i :: 0 <= i < |s| ==> 0x20 <= s[i] as int <= 0x7E && s[i] != '*')
    && (forall i :: 0 <= i < |s| - 1 ==> s[i] == ' ' ==> s[i + 1] != ' ')
  }

  /** Plain ASCII text with no space at either end is clean. */
  lemma CleanText(s: string)
    requires s != [] && s[0] != ' ' && s[|s| - 1] != ' ' && PlainAscii(s)
    ensures Clean(s)
  {
    forall i | 0 <= i < |s|
      ensures !IsEmoji(s[i]) && (IsWs(s[i]) ==> s[i] == ' ')
    {
      EmojiIntervals(s[i]);
    }
    forall i | 0 <= i < |s| - 1
      ensures !WsPairAt(s, i)
    {
    }
  }

  lemma DefaultReplyClean()
    ensures Clean(DefaultReply)
  {
    CleanText(DefaultReply);
  }

  /** Text already clean passes everything after the label pass unchanged. */
  lemma FinishFixesClean(y: string)
    requires Clean(y)
    ensures Finish(y) == y
  {
    CollapseNormalized(y);
  }

  /** A clean reply that does not begin with a label is a fixed point. */
  lemma SanitizeFixesClean(y: string)
    requires Clean(y) && !StartsWith(y, "Osito:") && !StartsWith(y, "osito:")
    ensures Sanitize(y) == y
  {
    assert y[0] in y;
    assert StripLabels(y, LabelPrefixes) == y;
    FinishFixesClean(y);
  }

  /** Sanitising twice is sanitising once, unless the first result begins with a
      label that the single pass exposed but did not remove. */
  lemma SanitizeIdempotent(x: string)
    requires !StartsWith(Sanitize(x), "Osito:") && !StartsWith(Sanitize(x), "osito:")
    ensures Sanitize(Sanitize(x)) == Sanitize(x)
  {
    SanitizeFixesClean(Sanitize(x));
  }

  /** The empty-result fallback is itself left unchanged. */
  lemma DefaultReplyFixed()
    ensures Sanitize(DefaultReply) == DefaultReply
  {
    DefaultReplyClean();
    assert DefaultReply[0] == 'H';
    SanitizeFixesClean(DefaultReply);
  }

  /** The ordered pass, written out one prefix at a time. */
  lemma StripLabelsSteps(s: string)
    ensures StripLabels(s, LabelPrefixes)
         == StripLabel(StripLabel(StripLabel(s, "Osito:"), "osito:"), "**")
  {
    var ps := LabelPrefixes;
    assert ps[0] == "Osito:" && ps[1..][0] == "osito:" && ps[1..][1..][0] == "**";
    assert ps[1..][1..][1..] == [];
  }

  /** A reply opening with "**" loses only that marker in the pass. */
  lemma StarredLabelPass(s: string)
    requires |s| >= 2 && s[0] == '*' && s[1] == '*'
    ensures StripLabels(s, LabelPrefixes) == Trim(s[2..])
  {
    StripLabelsSteps(s);
    HeadMismatch(s, "Osito:");
    HeadMismatch(s, "osito:");
    assert StripLabel(s, "Osito:") == s && StripLabel(s, "osito:") == s;
    StarsPrefix(s);
  }

  lemma StarsPrefix(s: string)
    requires |s| >= 2 && s[0] == '*' && s[1] == '*'
    ensures StripLabel(s, "**") == Trim(s[2..])
  {
    assert s[..2] == "**";
  }

  /** A reply opening with "Osito:" loses the label, and nothing else when what follows
      opens with neither of the later prefixes. */
  lemma NamedLabelPass(s: string)
    requires StartsWith(s, "Osito:")
    requires !StartsWith(Trim(s[6..]), "osito:") && !StartsWith(Trim(s[6..]), "**")
    ensures StripLabels(s, LabelPrefixes) == Trim(s[6..])
  {
    StripLabelsSteps(s);
    var t := Trim(s[6..]);
    assert StripLabel(s, "Osito:") == t;
  }

  /** Once the label pass is known to leave clean text, that text is the reply. */
  lemma SanitizeVia(raw: string, t: string)
    requires StripLabels(Trim(raw), LabelPrefixes) == t && Clean(t)
    ensures Sanitize(raw) == t
  {
    FinishFixesClean(t);
  }

  /** The label pass is not repeated: a reply "**Osito: w" loses only the marker, and
      the label it uncovers is removed only by a second sanitising. So sanitising is
      not idempotent, for every clean `w` (for instance "hola"). */
  lemma LabelSurvivesOnePass(w: string)
    requires Clean(w) && !StartsWith(w, "osito:")
    ensures Sanitize("**Osito: " + w) == "Osito: " + w
    ensures Sanitize("Osito: " + w) == w
    ensures Sanitize(Sanitize("**Osito: " + w)) != Sanitize("**Osito: " + w)
  {
    FirstPass(w);
    SecondPass(w);
    assert |"Osito: " + w| != |w|;
  }

  lemma FirstPass(w: string)
    requires Clean(w)
    ensures Sanitize("**Osito: " + w) == "Osito: " + w
  {
    var y := "Osito: " + w;
    var x := "**Osito: " + w;
    LabelledClean(w);
    assert x[2..] == y;
    MarkerRemoved(x, y);
  }

  lemma SecondPass(w: string)
    requires Clean(w) && !StartsWith(w, "osito:")
    ensures Sanitize("Osito: " + w) == w
  {
    var y := "Osito: " + w;
    LabelledClean(w);
    assert y[..6] == "Osito:" && y[6..] == " " + w;
    LabelRemoved(y, w);
  }

  /** A reply that is "**" followed by clean text comes out as that text. */
  lemma MarkerRemoved(x: string, y: string)
    requires |x| >= 2 && x[0] == '*' && x[1] == '*' && x[2..] == y && Clean(y)
    ensures Sanitize(x) == y
  {
    assert x[|x| - 1] == y[|y| - 1];
    assert Trim(x) == x;
    StarredLabelPass(x);
    SanitizeVia(x, y);
  }

  /** A clean reply "Osito: w" comes out as `w` when `w` is clean and opens with
      neither later prefix. */
  lemma LabelRemoved(y: string, w: string)
    requires |y| >= 6 && y[..6] == "Osito:" && y[6..] == " " + w
    requires Trimmed(y) && Clean(w) && !StartsWith(w, "osito:")
    ensures Sanitize(y) == w
  {
    assert Trim(y[6..]) == w by { SpaceThenTrimmed(w); }
    assert !StartsWith(w, "**") by {
      assert w[0] in w;
      HeadMismatch(w, "**");
    }
    assert StripLabels(Trim(y), LabelPrefixes) == w by {
      assert Trim(y) == y;
      NamedLabelPass(y);
    }
    SanitizeVia(y, w);
  }

  /** Putting the label in front of clean text keeps it clean. */
  lemma LabelledClean(w: string)
    requires Clean(w)
    ensures Clean("Osito: " + w)
  {
    var y := "Osito: " + w;
    forall i | 0 <= i < |y|
      ensures !IsEmoji(y[i])
    {
      if i >= 7 { assert y[i] == w[i - 7]; } else { EmojiIntervals(y[i]); }
    }
    forall i | 0 <= i < |y| - 1
      ensures !WsPairAt(y, i)
    {
      if i >= 7 { assert !WsPairAt(w, i - 7); }
    }
    assert forall i :: 7 <= i < |y| ==> y[i] == w[i - 7];
  }

  /** The label pass only drops visible characters from the front: the visible
      characters of its result are the last ones of the raw reply's. */
  lemma LabelPassKeepsTail(raw: string)
    ensures IsSuffix(Keep(StripLabels(Trim(raw), LabelPrefixes), Visible), Keep(raw, Visible))
  {
    var trimmed := Trim(raw);
    LabelPassSuffix(trimmed);
    KeepSuffix(StripLabels(trimmed, LabelPrefixes), trimmed, Visible);
    KeepTrim(raw, Visible);
  }

  /** A reply that opens with no label keeps every visible character, in order,
      and falls back to the default reply exactly when it has none. */
  lemma SanitizeKeepsWords(raw: string)
    requires !StartsWith(Trim(raw), "Osito:") && !StartsWith(Trim(raw), "osito:")
    requires !StartsWith(Trim(raw), "**")
    ensures Keep(raw, Visible) == [] ==> Sanitize(raw) == DefaultReply
    ensures Keep(raw, Visible) != [] ==> Keep(Sanitize(raw), NotWs) == Keep(raw, Visible)
  {
    var trimmed := Trim(raw);
    StripLabelsSteps(trimmed);
    assert StripLabels(trimmed, LabelPrefixes) == trimmed;
    KeepTrim(raw, Visible);
  }

  /** A reply opening with "**" and then a visible character keeps every visible
      character: the pass removes only the marker. */
  lemma MarkerKeepsAll(raw: string)
    requires |raw| >= 3 && raw[0] == '*' && raw[1] == '*' && Visible(raw[2])
    ensures Keep(Sanitize(raw), NotWs) == Keep(raw, Visible)
  {
    TrimStarred(raw);
    TrimKeepsVisible(raw);
    StarredPassKeeps(Trim(raw));
  }

  lemma TrimStarred(raw: string)
    requires |raw| >= 3 && raw[0] == '*' && raw[1] == '*' && Visible(raw[2])
    ensures |Trim(raw)| >= 3 && Trim(raw)[..3] == raw[..3]
  {
    TrimAt(raw);
    assert SkipWs(raw, 0) == 0;
  }

  lemma TrimKeepsVisible(raw: string)
    requires |raw| >= 3 && Visible(raw[2])
    ensures Keep(Trim(raw), Visible) == Keep(raw, Visible) != []
  {
    KeepTrim(raw, Visible);
    assert raw[2] in raw;
  }

  /** The label pass on a stripped reply opening with "**" keeps its visible
      characters. */
  lemma StarredPassKeeps(s: string)
    requires |s| >= 2 && s[0] == '*' && s[1] == '*' && Trimmed(s)
    ensures Keep(StripLabels(s, LabelPrefixes), Visible) == Keep(s, Visible)
  {
    StarredLabelPass(s);
    StarredKeep(s);
  }

  lemma StarredKeep(s: string)
    requires |s| >= 2 && s[0] == '*' && s[1] == '*'
    ensures Keep(Trim(s[2..]), Visible) == Keep(s, Visible)
  {
    var rest := s[2..];
    assert !Visible(s[0]) && !Visible(s[1]);
    KeepDropFront(s, 2, Visible);
    assert Keep(s, Visible) == Keep(rest, Visible);
    KeepTrim(rest, Visible);
    assert Keep(Trim(rest), Visible) == Keep(rest, Visible);
  }

  /** A reply opening with "**Osito:" keeps its label whatever follows: the visible
      characters of the result are "Osito:" followed by those of the rest. */
  lemma MarkedLabelSurvives(x: string)
    ensures Keep(Sanitize("**Osito:" + x), NotWs) == "Osito:" + Keep(x, Visible)
  {
    var raw := "**Osito:" + x;
    assert raw[0] == '*' && raw[1] == '*' && raw[2] == 'O';
    assert Visible('O') by { EmojiIntervals('O'); }
    MarkerKeepsAll(raw);
    MarkedLabelVisible(x);
  }

  lemma MarkedLabelVisible(x: string)
    ensures Keep("**Osito:" + x, Visible) == "Osito:" + Keep(x, Visible)
  {
    var marker, name := "**", "Osito:";
    assert marker + name + x == "**Osito:" + x;
    NameVisible();
    KeepAfterDropped(marker, name, x, Visible);
  }

  lemma NameVisible()
    ensures forall i :: 0 <= i < |"Osito:"| ==> Visible("Osito:"[i])
  {
    forall i | 0 <= i < |"Osito:"|
      ensures Visible("Osito:"[i])
    {
      EmojiIntervals("Osito:"[i]);
    }
  }
}
