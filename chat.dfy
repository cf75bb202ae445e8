/** One turn of the chat loop in chatbot.py: the input is lower-cased and
    ends the session when it reads `exit`; otherwise the nearest stored
    question found by the similarity search decides between its answer and
    the fixed apology. The embedding model and the search itself are not
    modelled: their top-1 result, a distance and an index, is an input. */
module Chat {
  import opened PyStr
  import Knowledge

  /** What the bot does with one line of input: say goodbye and stop, print
      the apology for an input it does not recognise, or print a stored
      answer. */
  datatype Reply = Exit | Fallback | Answer(text: string)

  /** The largest search distance at which the nearest answer is used. */
  const Threshold: real := 1.0

  /** The command that ends the session, compared after lower-casing. */
  const ExitCommand: string := "exit"

  /** The reply to `input`, given the top-1 search result (`distance`,
      `index`) for it over the stored questions. chatbot.py indexes
      `answers` only at or below the threshold, so only there must the index be a
      valid position. */
  function Respond(input: string, distance: real, index: int, answers: seq<string>): (r: Reply)
    requires Lower(input) != ExitCommand && distance <= Threshold ==> 0 <= index < |answers|
    ensures r.Answer? ==> r.text in answers
  {
    if Lower(input) == ExitCommand then Exit
    else if distance > Threshold then Fallback
    else Answer(answers[index])
  }

  /** `exit` in any mix of upper and lower case, and nothing else (no
      surrounding whitespace, no other letters). */
  predicate IsExitWord(s: string) {
    |s| == 4 && (s[0] == 'e' || s[0] == 'E') && (s[1] == 'x' || s[1] == 'X')
      && (s[2] == 'i' || s[2] == 'I') && (s[3] == 't' || s[3] == 'T')
  }

  /** The session ends exactly on the 16 case variants of `exit`, whatever the
      search would have returned. */
  lemma ExitIff(input: string, distance: real, index: int, answers: seq<string>)
    requires Lower(input) != ExitCommand && distance <= Threshold ==> 0 <= index < |answers|
    ensures Respond(input, distance, index, answers) == Exit <==> IsExitWord(input)
  {
  }

  /** For any other input, the stored answer is given exactly when the
      distance is at most the threshold, the boundary included, and the
      apology exactly when it is above. */
  lemma ThresholdDecides(input: string, distance: real, index: int, answers: seq<string>)
    requires !IsExitWord(input)
    requires distance <= Threshold ==> 0 <= index < |answers|
    ensures Respond(input, distance, index, answers) == Fallback <==> distance > Threshold
    ensures distance <= Threshold ==> Respond(input, distance, index, answers) == Answer(answers[index])
  {
  }

  /** A search result exactly at the threshold still gives the stored
      answer. */
  lemma AtThresholdAnswers(input: string, index: int, answers: seq<string>)
    requires !IsExitWord(input) && 0 <= index < |answers|
    ensures Respond(input, Threshold, index, answers) == Answer(answers[index])
  {
  }

  /** Moving the nearest question further away can only turn an answer into
      the apology, never the other way round. */
  lemma FallbackMonotone(input: string, d1: real, d2: real, index: int, answers: seq<string>)
    requires d1 <= d2
    requires Lower(input) != ExitCommand && d1 <= Threshold ==> 0 <= index < |answers|
    requires Respond(input, d1, index, answers) == Fallback
    ensures Respond(input, d2, index, answers) == Fallback
  {
  }

  /** The answer on a confident match is the stored answer at the found
      position, with its case as in the knowledge file. */
  lemma AnswerIsStored(input: string, distance: real, index: int, answers: seq<string>)
    requires Lower(input) != ExitCommand && distance <= Threshold ==> 0 <= index < |answers|
    requires Respond(input, distance, index, answers).Answer?
    ensures 0 <= index < |answers| && distance <= Threshold && !IsExitWord(input)
    ensures Respond(input, distance, index, answers).text == answers[index]
  {
  }

  /** The one-line file `how are you|I am fine, thanks!` loads as that one
      entry. */
  lemma ExampleFileLoads()
    ensures Knowledge.Load(["how are you|I am fine, thanks!\n"]) == Knowledge.Ok((["how are you"], ["I am fine, thanks!"]))
  {
    var q, a := "how are you", "I am fine, thanks!";
    assert Knowledge.IsQuestion(q);
    assert Knowledge.IsAnswer(a);
    Knowledge.LoadSingleLine(q, a, "\n");
    assert q + "|" + a + "\n" == "how are you|I am fine, thanks!\n";
  }

  /** Loading that file and asking `How are you` with a search hit at
      distance 0 on its entry gives the answer back unchanged. */
  lemma ExactQuestionAnswered()
    ensures Knowledge.Load(["how are you|I am fine, thanks!\n"]).Ok?
    ensures Respond("How are you", 0.0, 0, Knowledge.Load(["how are you|I am fine, thanks!\n"]).value.1)
      == Answer("I am fine, thanks!")
  {
    ExampleFileLoads();
    assert !IsExitWord("How are you");
    ThresholdDecides("How are you", 0.0, 0, ["I am fine, thanks!"]);
  }
}
