/** `main_loop` (osito.py): the bounded conversation history and what one turn of the
    loop does with the typed command, the transcription outcome and the chat backend.
    Recording, printing, speaking and latency timing are left to the caller: a turn
    yields the text to be spoken. */
module Session {
  import opened Wrappers
  import opened Text
  import opened Sanitizer
  import opened Transcriber
  import opened Generator

  const MaxHistoryTurns: nat := 4

  /** Each remembered turn is a user message and an assistant message. */
  const MaxMessages: nat := 2 * MaxHistoryTurns

  const Greeting: string := "Hola! Soy Osito, tu amigo! Como te llamas?"
  const Farewell: string := "Adios amigo! Hasta pronto!"
  const UnsupportedReply: string := "Hmm, solo entiendo espanol e ingles. Try again!"
  const NotHeardReply: string := "No te escuche bien. Can you say that again?"

  /** The history invariant: at most `MaxMessages` entries, made of whole
      user/assistant pairs in that order, every assistant entry speakable text. */
  ghost predicate WellFormedHistory(h: seq<Msg>) {
    && |h| <= MaxMessages
    && |h| % 2 == 0
    && forall i :: 0 <= i < |h| ==>
         && h[i].role == (if i % 2 == 0 then User else Assistant)
         && (h[i].role == Assistant ==> Clean(h[i].content))
  }

  /** Append the exchange, then keep only the newest `MaxMessages` entries. */
  function Remember(h: seq<Msg>, userText: string, reply: string): (r: seq<Msg>)
    ensures |r| == if |h| + 2 <= MaxMessages then |h| + 2 else MaxMessages
    ensures r == (h + [Msg(User, userText), Msg(Assistant, reply)])[|h| + 2 - |r|..]
    ensures r[|r| - 2..] == [Msg(User, userText), Msg(Assistant, reply)]
    ensures WellFormedHistory(h) && Clean(reply) ==> WellFormedHistory(r)
  {
    var all := h + [Msg(User, userText), Msg(Assistant, reply)];
    RememberKeepsPairs(h, userText, reply);
    if |all| > MaxMessages then all[|all| - MaxMessages..] else all
  }

  lemma RememberKeepsPairs(h: seq<Msg>, userText: string, reply: string)
    ensures var all := h + [Msg(User, userText), Msg(Assistant, reply)];
      WellFormedHistory(h) && Clean(reply) ==>
        WellFormedHistory(if |all| > MaxMessages then all[|all| - MaxMessages..] else all)
  {
    if !(WellFormedHistory(h) && Clean(reply)) { return; }
    var all := h + [Msg(User, userText), Msg(Assistant, reply)];
    var off := if |all| > MaxMessages then |all| - MaxMessages else 0;
    var r := all[off..];
    assert off % 2 == 0;
    forall i | 0 <= i < |r|
      ensures r[i].role == (if i % 2 == 0 then User else Assistant)
      ensures r[i].role == Assistant ==> Clean(r[i].content)
    {
      assert r[i] == all[i + off];
      assert (i + off) % 2 == i % 2;
    }
  }

  /** `input(...).strip().lower() == "salir"`, with ASCII lower-casing. */
  predicate IsExitCommand(command: string) {
    AsciiLower(Trim(command)) == "salir"
  }

  /** The exit command is "salir" in any mix of ASCII letter case, with any
      whitespace around it and nothing else. */
  lemma ExitCommandIff(command: string)
    ensures IsExitCommand(command) <==>
      exists w :: Trimmed(w) && WsPadding(command, w) && AsciiLower(w) == "salir"
  {
    if IsExitCommand(command) {
      var w := Trim(command);
      assert Trimmed(w) && WsPadding(command, w) && AsciiLower(w) == "salir";
    }
    if exists w :: Trimmed(w) && WsPadding(command, w) && AsciiLower(w) == "salir" {
      var w :| Trimmed(w) && WsPadding(command, w) && AsciiLower(w) == "salir";
      TrimUnique(command, w);
    }
  }

  /** The state after one turn of the loop and what Osito says in it. */
  datatype Turn = Turn(history: seq<Msg>, spoken: string, exit: bool)

  /** One iteration of `main_loop`. `heard` is what `transcribe` returned for the
      recording made after `command`; `chat` is the backend for this turn. */
  function Step(h: seq<Msg>, command: string, heard: Heard, chat: Chat): (r: Turn)
    ensures r.exit <==> IsExitCommand(command)
    ensures r.exit ==> r.history == h && r.spoken == Farewell
    ensures !r.exit && heard.status == UnsupportedLanguage ==> r == Turn(h, UnsupportedReply, false)
    ensures !r.exit && heard.status != UnsupportedLanguage && heard.text.None? ==> r == Turn(h, NotHeardReply, false)
    ensures !r.exit && heard.status != UnsupportedLanguage && heard.text.Some? ==>
      && r.spoken == Generate(heard.text.value, h, chat)
      && r.history == Remember(h, heard.text.value, r.spoken)
    ensures r.history != h ==> !r.exit && heard.text.Some? && heard.status != UnsupportedLanguage
    ensures r.spoken != []
    ensures WellFormedHistory(h) ==> WellFormedHistory(r.history)
  {
    if IsExitCommand(command) then Turn(h, Farewell, true)
    else if heard.status == UnsupportedLanguage then Turn(h, UnsupportedReply, false)
    else if heard.text.None? then Turn(h, NotHeardReply, false)
    else
      var reply := Generate(heard.text.value, h, chat);
      Turn(Remember(h, heard.text.value, reply), reply, false)
  }

  /** The exit command is checked before anything is recorded: the turn is the same
      whatever the recording and the backend would have produced. */
  lemma ExitSkipsCapture(h: seq<Msg>, command: string, heard1: Heard, heard2: Heard, chat1: Chat, chat2: Chat)
    requires IsExitCommand(command)
    ensures Step(h, command, heard1, chat1) == Step(h, command, heard2, chat2) == Turn(h, Farewell, true)
  {
  }

  /** A rejected recording never reaches the backend: the turn is the same for every
      backend, and the history is untouched. */
  lemma RejectionSkipsBackend(h: seq<Msg>, command: string, heard: Heard, chat1: Chat, chat2: Chat)
    requires heard.text.None? || heard.status == UnsupportedLanguage
    ensures Step(h, command, heard, chat1) == Step(h, command, heard, chat2)
    ensures Step(h, command, heard, chat1).history == h
  {
  }

  /** What the loop is given on each turn. */
  datatype TurnInput = TurnInput(command: string, heard: Heard, chat: Chat)

  /** The history after a run of turns, everything said in them, and whether the run
      ended with the exit command. */
  datatype Conversation = Conversation(history: seq<Msg>, spoken: seq<string>, exited: bool)

  /** The loop from history `h` over the given turns, stopping after the first exit
      command: one spoken reply per turn taken. */
  function Run(h: seq<Msg>, inputs: seq<TurnInput>): (c: Conversation)
    ensures |c.spoken| <= |inputs|
    ensures !c.exited ==> |c.spoken| == |inputs|
    ensures c.exited ==> 0 < |c.spoken|
    decreases |inputs|
  {
    if inputs == [] then Conversation(h, [], false)
    else
      var t := Step(h, inputs[0].command, inputs[0].heard, inputs[0].chat);
      if t.exit then Conversation(t.history, [t.spoken], true)
      else
        var rest := Run(t.history, inputs[1..]);
        Conversation(rest.history, [t.spoken] + rest.spoken, rest.exited)
  }

  /** One turn of `Run`, unfolded. */
  lemma RunCons(h: seq<Msg>, inputs: seq<TurnInput>)
    requires inputs != []
    ensures var t := Step(h, inputs[0].command, inputs[0].heard, inputs[0].chat);
      && (t.exit ==> Run(h, inputs) == Conversation(t.history, [t.spoken], true))
      && (!t.exit ==> var rest := Run(t.history, inputs[1..]);
            Run(h, inputs) == Conversation(rest.history, [t.spoken] + rest.spoken, rest.exited))
  {
  }

  /** A run that exits ends on the farewell, in a turn whose command was the exit. */
  lemma {:induction false} RunEndsOnExit(h: seq<Msg>, inputs: seq<TurnInput>)
    ensures var c := Run(h, inputs);
      c.exited ==> IsExitCommand(inputs[|c.spoken| - 1].command) && c.spoken[|c.spoken| - 1] == Farewell
    decreases |inputs|
  {
    if inputs != [] {
      RunCons(h, inputs);
      var t := Step(h, inputs[0].command, inputs[0].heard, inputs[0].chat);
      if !t.exit {
        RunEndsOnExit(t.history, inputs[1..]);
        var rest := Run(t.history, inputs[1..]);
        if rest.exited {
          assert inputs[|rest.spoken|] == inputs[1..][|rest.spoken| - 1];
        }
      }
    }
  }

  /** The loop ends at the first exit command: no turn it took before the last one,
      and none at all in a run that did not exit, had the exit command. */
  lemma {:induction false} RunStopsAtFirstExit(h: seq<Msg>, inputs: seq<TurnInput>)
    ensures var c := Run(h, inputs); var taken := if c.exited then |c.spoken| - 1 else |inputs|;
      forall i :: 0 <= i < taken ==> !IsExitCommand(inputs[i].command)
    decreases |inputs|
  {
    if inputs != [] {
      RunCons(h, inputs);
      var t := Step(h, inputs[0].command, inputs[0].heard, inputs[0].chat);
      if !t.exit {
        RunStopsAtFirstExit(t.history, inputs[1..]);
        var rest := Run(t.history, inputs[1..]);
        var taken := if rest.exited then |rest.spoken| - 1 else |inputs| - 1;
        forall i | 0 <= i < taken + 1
          ensures !IsExitCommand(inputs[i].command)
        {
          if i > 0 {
            assert inputs[i] == inputs[1..][i - 1];
          }
        }
      }
    }
  }

  /** Something is said on every turn taken. */
  lemma {:induction false} RunAlwaysSpeaks(h: seq<Msg>, inputs: seq<TurnInput>)
    ensures [] !in Run(h, inputs).spoken
    decreases |inputs|
  {
    if inputs != [] {
      RunCons(h, inputs);
      var t := Step(h, inputs[0].command, inputs[0].heard, inputs[0].chat);
      if !t.exit {
        RunAlwaysSpeaks(t.history, inputs[1..]);
      }
    }
  }

  /** However many turns are taken, the history stays bounded and well formed. */
  lemma {:induction false} RunKeepsHistory(h: seq<Msg>, inputs: seq<TurnInput>)
    requires WellFormedHistory(h)
    ensures WellFormedHistory(Run(h, inputs).history)
    decreases |inputs|
  {
    if inputs != [] {
      var t := Step(h, inputs[0].command, inputs[0].heard, inputs[0].chat);
      RunCons(h, inputs);
      if !t.exit {
        RunKeepsHistory(t.history, inputs[1..]);
      }
    }
  }

  /** `main_loop` from the start: the greeting is spoken first and never enters the
      history, which starts empty. */
  function MainLoop(inputs: seq<TurnInput>): (c: Conversation)
    ensures |c.spoken| >= 1 && c.spoken[0] == Greeting
    ensures |c.spoken| <= |inputs| + 1
    ensures WellFormedHistory(c.history)
    ensures c.exited ==> c.spoken[|c.spoken| - 1] == Farewell
  {
    var c := Run([], inputs);
    RunKeepsHistory([], inputs);
    RunEndsOnExit([], inputs);
    Conversation(c.history, [Greeting] + c.spoken, c.exited)
  }
}
