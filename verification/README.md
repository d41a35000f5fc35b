# Osito, modelled in Dafny

Osito is a voice companion that teaches Spanish to small children: it records the
child, transcribes the recording with Whisper, asks a local language model (through
Ollama) for a short reply, cleans that reply up and speaks it with Piper. This project
models the deterministic core of `osito.py`, with every external tool turned into an
input:

- **Text** (`text.dfy`): `str.strip()`, character deletion, `str.replace(pat, "")`,
  `re.sub(r'\s+', ' ', s)`, substring search and lower-casing, over strings of Unicode
  code points.
- **Emoji** (`emoji.dfy`): `strip_emojis`, with the character class kept as the ten
  `(lo, hi)` ranges exactly as written, overlaps and the wide U+24C2..U+1F251 range
  included.
- **Sanitizer** (`sanitizer.dfy`): the clean-up tail of `generate_response`. It trims
  the reply and makes one ordered pass over the labels "Osito:", "osito:" and "**".
  Then it deletes asterisks and emoji, collapses whitespace, and falls back to
  "Hola! Como estas?" when nothing is left.
- **Transcriber** (`transcriber.dfy`): what `transcribe` decides once Whisper has
  answered. It covers the en/es admission gate, the hallucination filter, the
  two-character minimum, and the exceptions that become the "error" status.
- **Generator** (`generator.dfy`): the request sent to the chat model (system prompt,
  history, user text) and the reply. The reply is the sanitised answer, or
  "Hola! Que quieres decirme?" when the call fails.
- **Session** (`session.dfy`): one iteration of `main_loop` as a pure step from
  (history, typed command, transcription outcome, backend) to (history, spoken text,
  exit). It also covers the bounded history of the last four exchanges and whole runs
  of the loop.

The chat backend is a function from the request messages to `Result<string, ChatError>`.
"The backend is never consulted" is therefore stated as "the turn is the same for every
backend". The detected language and the decoded transcript reach `Transcribe` as
`Result` values, so an exception raised by the speech model is an input too.

The label pass is a single pass (osito.py:271-273). Each of "Osito:", "osito:" and "**"
is tried once, in that order, on what the previous try left. A reply such as
"**Osito:** Hola Ana! 😊 Te gusta el azul?" loses only its leading "**" in that pass.
That exposes "Osito:" after that prefix has already been tried, so the spoken reply still
carries the label.

- `Sanitizer.MarkedLabelSurvives` proves this for every reply that opens with "**Osito:".
  The visible characters of the result are "Osito:" followed by the visible characters
  of the rest.
- `Sanitizer.LabelSurvivesOnePass` covers replies "**Osito: w" with `w` already
  speakable. The result is exactly "Osito: w", and sanitising it again removes the
  label, so sanitising is not idempotent.
- `Sanitizer.SanitizeIdempotent` proves idempotence whenever the first result does not
  begin with a label.

"Visible" below means a character the clean-up never deletes: not whitespace, not an
asterisk, not in the emoji ranges.

## Model

| member | source | states |
|---|---|---|
| Text.SkipWs | osito.py:268-273 | the leading whitespace run of `s` from position `i`: everything skipped is whitespace and the position reached is not |
| Text.SkipWsBack | osito.py:268-273 | the trailing whitespace run of `s[lo..hi]`: everything skipped is whitespace and the character before the position reached is not |
| Text.Trim | osito.py:268-273 | `strip()`: the result has no whitespace at either end, is obtained from the input by removing only surrounding whitespace, and leaves a stripped string unchanged |
| Text.TrimUnique | osito.py:268-273 | any stripped string obtained from `s` by removing surrounding whitespace is `Trim(s)`, so the contract of `Trim` pins its result |
| Text.KeepTrim | osito.py:268 | `strip()` deletes no character that a whitespace-rejecting filter keeps: filtering before or after stripping gives the same string |
| Text.TrimSuffix | osito.py:273 | on a string whose last character is not whitespace, `strip()` only cuts a prefix |
| Text.Keep | osito.py:248 | deleting the characters a predicate rejects: the result has exactly the input's characters that satisfy it, every one of them satisfies it, and nothing is deleted when all do |
| Text.KeepAppend | osito.py:248 | deletion distributes over concatenation, so with `KeepSingle` it fixes the result character by character: the kept characters, in input order, with their multiplicity |
| Text.KeepSingle | osito.py:248 | a single character is kept exactly when it satisfies the predicate |
| Text.KeepBoth | osito.py:274-278 | deleting by one predicate and then by another is deleting once by their conjunction |
| Text.KeepSuffix | osito.py:271-273 | deleting from a suffix of `s` gives a suffix of what deleting from `s` gives |
| Text.RemoveAll | osito.py:274 | `replace(pat, "")` never lengthens the text, introduces no character, keeps every character that does not occur in the pattern, and changes nothing when the pattern does not occur |
| Text.RemoveAllKeeps | osito.py:274 | deleting every occurrence of a pattern whose characters a filter all rejects leaves what the filter keeps unchanged |
| Text.DeleteStarsIsKeep | osito.py:274 | `replace("**", "").replace("*", "")` deletes exactly the asterisks and keeps every other character in order |
| Text.Collapse | osito.py:280 | `re.sub(r'\s+', ' ', s)`: the result is never longer, is empty only for empty input, has only single plain spaces as whitespace, keeps the non-whitespace characters in order, and starts with whitespace exactly when the input does |
| Text.CollapseNormalized | osito.py:280 | text already in collapsed form is left unchanged by the substitution |
| Text.AsciiLower | osito.py:214 | lower-casing keeps the length and lowers each letter in place |
| Text.ContainsIffOccurs | osito.py:214 | the `in` test on strings holds exactly when the phrase occurs at some index |
| Emoji.EmojiIntervals | osito.py:233-246 | a character is in the ten-range class exactly when it lies in one of four merged intervals, so every code point below U+24C2 is kept |
| Emoji.StripEmojis | osito.py:231-248 | the result is the emoji-free input with only surrounding whitespace removed: it holds no character of the class, is stripped, and keeps every non-whitespace non-emoji character of the input in order; input already emoji-free and stripped is unchanged |
| Sanitizer.StripLabel | osito.py:272-273 | one label step: a missing prefix changes nothing; a present one is removed and what follows it is stripped, so the result is the text after the prefix with only surrounding whitespace removed |
| Sanitizer.LabelStepSuffix | osito.py:272-273 | on stripped text one step only cuts a prefix off |
| Sanitizer.StripLabels | osito.py:271-273 | the ordered label pass introduces no new characters, keeps stripped text stripped, and leaves text opening with none of the labels unchanged |
| Sanitizer.StripLabelsSteps | osito.py:271-273 | the pass is exactly one try of "Osito:", then "osito:", then "**", each on what the previous try left |
| Sanitizer.LabelPassSuffix | osito.py:271-273 | on stripped text the whole pass only cuts a prefix off |
| Sanitizer.DeleteStars | osito.py:274 | no asterisk remains, no character is introduced, and asterisk-free text is unchanged |
| Sanitizer.Scrub | osito.py:274-280 | after deleting asterisks and emoji and collapsing whitespace, the text is stripped and single-spaced, holds only spaces and undeleted characters of its input, and its non-space characters are exactly the input's visible characters in order |
| Sanitizer.ScrubAllInert | osito.py:274-280 | text made only of whitespace, asterisks and emoji scrubs to nothing |
| Sanitizer.Finish | osito.py:274-283 | the reply is speakable (non-empty, no asterisk, no emoji, stripped, single-spaced); it is "Hola! Como estas?" when the text has no visible character, and otherwise its non-space characters are exactly the text's visible characters in order |
| Sanitizer.Sanitize | osito.py:268-285 | the sanitised reply is speakable; with `t` the raw reply after `strip()` and the label pass, it is the fallback when `t` has no visible character and otherwise its non-space characters are exactly those of `t`, in order |
| Sanitizer.SanitizeKeepsWords | osito.py:268-285 | a raw reply that opens with no label keeps every visible character in order, and gets the fallback exactly when it has none |
| Sanitizer.LabelPassKeepsTail | osito.py:268-273 | the label pass drops visible characters only from the front: what it leaves are the last visible characters of the raw reply |
| Sanitizer.MarkerKeepsAll | osito.py:268-285 | a reply opening with "**" and then a visible character keeps every visible character, in order |
| Sanitizer.MarkedLabelSurvives | osito.py:271-273 | whatever follows "**Osito:", the visible characters of the sanitised reply are "Osito:" followed by those of the rest: the label is not removed |
| Sanitizer.SanitizeFixesClean | osito.py:268-285 | speakable text that does not begin with "Osito:" or "osito:" is left unchanged |
| Sanitizer.SanitizeIdempotent | osito.py:271-273 | sanitising twice equals sanitising once whenever the first result does not begin with a label |
| Sanitizer.DefaultReplyFixed | osito.py:282-283 | the empty-result fallback is itself unchanged by sanitising |
| Sanitizer.LabelSurvivesOnePass | osito.py:271-273 | for every speakable `w` that does not itself open with "osito:", "**Osito: w" sanitises to "Osito: w", which sanitises further to `w`, so sanitising is not idempotent |
| Sanitizer.StarredLabelPass | osito.py:271-273 | a reply opening with "**" loses only that marker in the label pass |
| Sanitizer.NamedLabelPass | osito.py:272-273 | a reply opening with "Osito:" loses the label and its following whitespace, and nothing more when neither later label follows |
| Transcriber.Hallucinated | osito.py:209-215 | the phrase loop rejects the text exactly when some listed phrase occurs in it, ignoring case, and the text is shorter than 40 characters |
| Transcriber.Gate | osito.py:193-220 | an unsupported language is rejected whatever the transcript. For en/es, the stripped text is accepted, tagged with the language, exactly when it has at least two characters and is not a short text holding a listed phrase; otherwise the status is no_speech |
| Transcriber.Transcribe | osito.py:180-224 | a RuntimeError, ValueError or KeyError raised by detection, or by decoding after a supported language, gives exactly `(None, "error")`; only those exceptions give the "error" status, and any other exception escapes; every outcome is well formed (recognised text is stripped, at least two characters long and tagged en or es); successful decoding gives the gate's decision |
| Transcriber.UnsupportedIgnoresTranscript | osito.py:193-195 | for an unsupported language the outcome does not depend on decoding, not even on whether it would fail |
| Generator.Request | osito.py:255-257 | the request has two more messages than the history: the system prompt first, the history unchanged in the middle, the user text last |
| Generator.Generate | osito.py:251-289 | every reply is speakable; a failed backend call yields exactly "Hola! Que quieres decirme?"; a successful one yields the sanitised answer to exactly that request |
| Generator.FallbackFixed | osito.py:287-289 | the backend-failure reply is unchanged by sanitising |
| Session.Remember | osito.py:399-406 | the history after an exchange is the last min(8, n+2) entries of the old history followed by the user and assistant messages, newest pair last; a well-formed history stays well formed (at most eight entries, whole user/assistant pairs, speakable assistant entries) |
| Session.ExitCommandIff | osito.py:352-354 | `IsExitCommand` holds exactly when the command is "salir" in any mix of letter case with only whitespace around it |
| Session.Step | osito.py:351-406 | "salir" (after strip and lower) exits with the farewell and the history unchanged. An unsupported language and any other missing text each get their own fixed message and leave the history unchanged. Recognised text gets the generated reply, remembered with it. Something is always spoken and well-formedness is preserved |
| Session.ExitSkipsCapture | osito.py:352-358 | on the exit command the turn does not depend on the recording or the backend |
| Session.RejectionSkipsBackend | osito.py:372-382 | a rejected recording gives the same turn for every backend and leaves the history unchanged |
| Session.Run | osito.py:350-406 | a run speaks once per turn taken, takes every turn unless it exits, and exits only after speaking |
| Session.RunEndsOnExit | osito.py:351-358 | a run that exits ends on the farewell, in a turn whose command was the exit command |
| Session.RunStopsAtFirstExit | osito.py:351-358 | no turn a run took before its last one had the exit command, and a run that did not exit met no exit command at all |
| Session.RunAlwaysSpeaks | osito.py:350-398 | every turn of a run says something non-empty |
| Session.RunKeepsHistory | osito.py:399-406 | any number of turns keeps the history bounded by eight entries, pair-aligned and speakable |
| Session.MainLoop | osito.py:339-358 | the loop opens with the greeting from an empty history; the history stays well formed and an exit ends on the farewell |

## Left out

- Audio capture (`record_audio`) is left out. It is device I/O and an int16-to-float conversion.
- Whisper's padding, mel spectrogram, language detection and the probability argmax are
  left out. They are a foreign model over floats, so the detected language and the
  decoded text are inputs.
- The Ollama call's model name and sampling options, and `check_ollama`, are left out.
  They are network configuration; the backend is a function parameter.
- `speak` is left out: Piper and `afplay` subprocesses, temporary files and timeouts.
  Its temporary WAV file is deleted only on the success path, a leak this model does not
  describe.
- The following are left out as printing, process exit and wall-clock timing:
  - `check_piper_installation`, `load_whisper_model`, `load_models`, `print_header`;
  - `main` and `sys.exit`;
  - the latency measurements and all console output.
- `download_models.py` is left out. It is downloads and file copying only.
- Text.AsciiLower: lowers only A-Z; Python's `lower()` also lowers non-ASCII letters.
  This can matter for the hallucination phrases: U+212A KELVIN SIGN lowers to "k", as in
  "Thank". It does not matter for the exit command: no character other than these ASCII
  letters lowers to one of "s", "a", "l", "i", "r" alone.
- Text.IsWs is one fixed whitespace set, Python's `str.isspace()` code points. It is
  shared by `strip()` and the `\s+` substitution, as in Python 3 `str` regular
  expressions.
- Text.Collapse: the contract states that non-whitespace characters are kept in order
  and whitespace ends up as single plain spaces. It does not state where each space
  lands relative to the original runs; the recursive definition does.
- Sanitizer.Scrub, Sanitizer.Finish and Sanitizer.Sanitize: the contracts pin the
  non-space characters of the reply and their order. Where the single spaces fall is left
  to the definition, for the reason given for `Text.Collapse`.
- Text.RemoveAll: the contract states `replace(pat, "")` only through its effect on
  characters. The exact result is stated for the two patterns the reply uses, by
  `Text.DeleteStarsIsKeep`.
- Transcriber.Transcribe: an exception other than RuntimeError, ValueError or KeyError
  is returned as `Failure`. Its propagation through `main_loop` to `main` is not
  modelled.
- Session.Step takes the transcription outcome as an input. The recording that
  produces it is not modelled.
