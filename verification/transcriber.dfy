/** The decisions `transcribe` (osito.py) takes once Whisper has answered: the
    language admission gate, the hallucination filter, the minimum length, and which
    exceptions become an "error" status. Language detection and decoding themselves
    are inputs. */
module Transcriber {
  import opened Wrappers
  import opened Text

  /** The second element of `transcribe`'s pair: the detected language on success,
      otherwise the reason for rejection. */
  datatype Status = Detected(lang: string) | UnsupportedLanguage | NoSpeech | TranscriptionError

  /** The pair `(text, status)` that `transcribe` returns. */
  datatype Heard = Heard(text: Option<string>, status: Status)

  /** Exceptions raised by the speech model; only the first three are caught. */
  datatype Exc = RuntimeError | ValueError | KeyError | OtherException(name: string)

  predicate Caught(e: Exc) {
    e.RuntimeError? || e.ValueError? || e.KeyError?
  }

  /** Boilerplate the speech model emits on silence or noise. */
  const Hallucinations: seq<string> := [
    "Gracias por ver", "Suscribete", "subtitulos",
    "MBC", "Thank you for watching", "Subscribe"
  ]

  /** Transcripts at least this long are never treated as hallucinations. */
  const HallucinationMaxLen: nat := 40

  /** Shorter transcripts are treated as silence. */
  const MinTextLen: nat := 2

  predicate Supported(lang: string) {
    lang == "en" || lang == "es"
  }

  /** Whether some phrase of `phrases` occurs in `text`, ignoring case, while `text`
      is short enough for the filter to apply; tried phrase by phrase, like the loop. */
  predicate Hallucinated(text: string, phrases: seq<string>)
    ensures Hallucinated(text, phrases) <==>
      exists k :: 0 <= k < |phrases| && Contains(AsciiLower(text), AsciiLower(phrases[k]))
                  && |text| < HallucinationMaxLen
    decreases |phrases|
  {
    if phrases == [] then false
    else if Contains(AsciiLower(text), AsciiLower(phrases[0])) && |text| < HallucinationMaxLen then true
    else
      assert forall k :: 1 <= k < |phrases| ==> phrases[k] == phrases[1..][k - 1];
      Hallucinated(text, phrases[1..])
  }

  /** What `transcribe` decides from the detected language and the raw transcript. */
  function Gate(lang: string, raw: string): (r: Heard)
    ensures !Supported(lang) ==> r == Heard(None, UnsupportedLanguage)
    ensures Supported(lang) ==> var t := Trim(raw);
      && (r.text.Some? <==>
           && |t| >= MinTextLen
           && !(|t| < HallucinationMaxLen
                && exists k :: 0 <= k < |Hallucinations|
                     && Contains(AsciiLower(t), AsciiLower(Hallucinations[k]))))
      && (r.text.Some? ==> r == Heard(Some(t), Detected(lang)))
      && (r.text.None? ==> r.status == NoSpeech)
  {
    if !Supported(lang) then Heard(None, UnsupportedLanguage)
    else
      var text := Trim(raw);
      if Hallucinated(text, Hallucinations) then Heard(None, NoSpeech)
      else if text == [] || |text| < MinTextLen then Heard(None, NoSpeech)
      else Heard(Some(text), Detected(lang))
  }

  /** The shape of every outcome `transcribe` returns: a recognised text is trimmed, at
      least two characters long and tagged with a supported language; otherwise the
      text is absent and the status is one of the three rejections. */
  ghost predicate WellFormedHeard(h: Heard) {
    match h.text
    case Some(t) => h.status.Detected? && Supported(h.status.lang) && |t| >= MinTextLen && Trimmed(t)
    case None => !h.status.Detected?
  }

  /** `transcribe`: `detection` is the language Whisper ranked first (or what it
      raised), `transcript` the decoded text (or what decoding raised). A caught
      exception becomes the "error" status; any other escapes as `Failure`. */
  function Transcribe(detection: Result<string, Exc>, transcript: Result<string, Exc>): (r: Result<Heard, Exc>)
    ensures r.Failure? <==>
      (detection.Failure? && !Caught(detection.error))
      || (detection.Success? && Supported(detection.value) && transcript.Failure? && !Caught(transcript.error))
    ensures r.Success? ==> WellFormedHeard(r.value)
    ensures r.Success? && r.value.status == TranscriptionError ==>
      (detection.Failure? && Caught(detection.error)) || transcript.Failure?
    ensures detection.Success? && transcript.Success? ==> r == Success(Gate(detection.value, transcript.value))
    ensures detection.Failure? && Caught(detection.error) ==> r == Success(Heard(None, TranscriptionError))
    ensures detection.Success? && Supported(detection.value) && transcript.Failure? && Caught(transcript.error) ==>
      r == Success(Heard(None, TranscriptionError))
  {
    match detection
    case Failure(e) => if Caught(e) then Success(Heard(None, TranscriptionError)) else Failure(e)
    case Success(lang) =>
      if !Supported(lang) then Success(Heard(None, UnsupportedLanguage))
      else
        match transcript
        case Failure(e) => if Caught(e) then Success(Heard(None, TranscriptionError)) else Failure(e)
        case Success(raw) => Success(Gate(lang, raw))
  }

  /** The admission gate runs before decoding: for an unsupported language the outcome
      is the same whatever the transcript would have been, or whether decoding would
      have failed. */
  lemma UnsupportedIgnoresTranscript(lang: string, t1: Result<string, Exc>, t2: Result<string, Exc>)
    requires !Supported(lang)
    ensures Transcribe(Success(lang), t1) == Transcribe(Success(lang), t2) == Success(Heard(None, UnsupportedLanguage))
  {
  }
}
