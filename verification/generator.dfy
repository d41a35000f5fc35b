/** `generate_response` (osito.py): the request sent to the chat model and what the
    assistant says back, including the fallback when the backend call fails. */
module Generator {
  import opened Wrappers
  import opened Text
  import opened Sanitizer

  datatype Role = System | User | Assistant

  /** One chat message, `{"role": ..., "content": ...}`. */
  datatype Msg = Msg(role: Role, content: string)

  /** Whatever the backend call raised (unreachable server, timeout, malformed
      response, missing "message" or "content" key). */
  datatype ChatError = ChatError(reason: string)

  /** The chat backend as seen by the assistant: the messages go in, the raw content
      of the reply or an error comes out. Model name and sampling options are fixed
      configuration of the call and are not part of the model. */
  type Chat = seq<Msg> -> Result<string, ChatError>

  /** The persona and its rules, sent as the first message of every request. */
  const SystemPrompt: string :=
    "You are Osito, a friendly teddy bear teaching Spanish to 4-year-old children.\n"
    + "\n"
    + "STRICT RULES:\n"
    + "- Respond ONLY in simple Spanish (never English)\n"
    + "- Maximum 8 words per response\n"
    + "- End with ONE simple question\n"
    + "- Use vocabulary a 4-year-old understands\n"
    + "- NEVER use emojis\n"
    + "- Remember the child's name and use it\n"
    + "\n"
    + "GOOD EXAMPLES:\n"
    + "- \"Hola Ana! Te gustan los perros?\"\n"
    + "- \"Azul! Muy lindo! Te gusta rojo?\"\n"
    + "- \"Uno, dos, tres! Puedes contar?\"\n"
    + "- \"Tengo hambre tambien! Te gusta pizza?\"\n"
    + "\n"
    + "TOPICS: colors, animals, food, numbers 1-5, family.\n"
    + "FORBIDDEN: emojis, long sentences, difficult words, English in responses."

  /** What is said when the backend call fails. */
  const GenerateFallback: string := "Hola! Que quieres decirme?"

  /** The messages of the request: the system prompt, the history as it stands, then
      the new user utterance. */
  function Request(userText: string, history: seq<Msg>): (r: seq<Msg>)
    ensures |r| == |history| + 2
    ensures r[0] == Msg(System, SystemPrompt)
    ensures r[1..|r| - 1] == history
    ensures r[|r| - 1] == Msg(User, userText)
  {
    [Msg(System, SystemPrompt)] + history + [Msg(User, userText)]
  }

  /** The reply to `userText`: the sanitised backend answer, or the fixed fallback when
      the backend fails. Either way it can be spoken as it is. */
  function Generate(userText: string, history: seq<Msg>, chat: Chat): (r: string)
    ensures Clean(r)
    ensures chat(Request(userText, history)).Failure? ==> r == GenerateFallback
    ensures chat(Request(userText, history)).Success? ==>
      var raw := chat(Request(userText, history)).value;
      r == Sanitize(raw) && (r == DefaultReply || forall i :: 0 <= i < |r| ==> r[i] == ' ' || r[i] in raw)
  {
    match chat(Request(userText, history))
    case Success(raw) => Sanitize(raw)
    case Failure(_) =>
      FallbackClean();
      GenerateFallback
  }

  lemma FallbackClean()
    ensures Clean(GenerateFallback)
  {
    CleanText(GenerateFallback);
  }

  /** The backend-failure reply would survive sanitising unchanged too. */
  lemma FallbackFixed()
    ensures Sanitize(GenerateFallback) == GenerateFallback
  {
    FallbackClean();
    assert GenerateFallback[0] == 'H';
    SanitizeFixesClean(GenerateFallback);
  }
}
