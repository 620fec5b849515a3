/** Query-time prompt assembly in `rag_query`: the texts of the matches the
    store returned are joined with line breaks into a context block, which is
    spliced with the literal question into a fixed template. The query
    embedding, the store query and the language-model call are not modelled;
    the matches are an input. */
module Prompting {
  import opened Seqs
  import opened Indexer

  /** The template's first line, "Use the following context to answer the
      question:". It is written as a concatenation of short literals so that
      facts about its characters (it holds no line break) follow piece by
      piece; `InstructionText` shows it is the one-literal line. */
  const Instruction: string := "Use the " + "following " + "context to " + "answer the " + "question:"
  /** The template before the context: the instruction and a blank line. */
  const Preamble: string := Instruction + "\n\n"
  /** The template between the context and the question. */
  const QuestionLabel: string := "\n\n" + "Question: "
  /** The template after the question. */
  const AnswerCue: string := "\n" + "Answer:" + "\n"

  /** One match the store returned for a query: its id, its (opaque) score and
      the metadata stored with it. */
  datatype Match<S> = Match(id: string, score: S, metadata: Metadata)

  /** `[match['metadata']['text'] for match in results['matches']]`: one text
      per match, in the store's order. */
  function MatchTexts<S>(matches: seq<Match<S>>): (texts: seq<string>)
    ensures |texts| == |matches|
    ensures forall i :: 0 <= i < |matches| ==> texts[i] == matches[i].metadata.text
  {
    seq(|matches|, i requires 0 <= i < |matches| => matches[i].metadata.text)
  }

  /** `"\n".join(texts)`: no texts give the empty context; otherwise the
      context is the first text followed by every later text with a line break
      in front of it, and when no text holds a line break, the lines of the
      context are the texts in the store's order. */
  function Context(texts: seq<string>): (context: string)
    ensures texts == [] ==> context == ""
    ensures |texts| >= 1 ==> context == texts[0] + Flatten(Prefixed("\n", texts[1..]))
    ensures |texts| >= 1 && (forall i :: 0 <= i < |texts| ==> '\n' !in texts[i]) ==>
      SplitOn('\n', context) == texts
  {
    if |texts| >= 1 then
      JoinIsFirstThenPrefixed("\n", texts);
      if forall i :: 0 <= i < |texts| ==> '\n' !in texts[i] then
        SplitOnJoin('\n', texts);
        Join("\n", texts)
      else
        Join("\n", texts)
    else
      Join("\n", texts)
  }

  /** The f-string prompt: the preamble, the context, the question label, the
      query verbatim and the answer cue. */
  function BuildPrompt(context: string, query: string): (prompt: string)
    ensures |prompt| == |Preamble| + |context| + |QuestionLabel| + |query| + |AnswerCue|
    ensures prompt[..|Preamble|] == Preamble
    ensures prompt[|Preamble|..|Preamble| + |context|] == context
    ensures prompt[|Preamble| + |context|..|Preamble| + |context| + |QuestionLabel|] == QuestionLabel
    ensures prompt[|prompt| - |AnswerCue| - |query|..|prompt| - |AnswerCue|] == query
    ensures prompt[|prompt| - |AnswerCue|..] == AnswerCue
  {
    Preamble + context + QuestionLabel + query + AnswerCue
  }

  /** The prompt `rag_query` sends for `query` given the store's matches. */
  function RagPrompt<S>(query: string, matches: seq<Match<S>>): (prompt: string)
    ensures matches == [] ==> prompt == Preamble + QuestionLabel + query + AnswerCue
  {
    BuildPrompt(Context(MatchTexts(matches)), query)
  }

  /** Read line by line, a prompt is the instruction, a blank line, the lines of
      the context, a blank line, the question line, the answer cue and a final
      empty line (after the trailing line break), provided the query is a single
      line. */
  lemma PromptLines(context: string, query: string)
    requires '\n' !in query
    ensures SplitOn('\n', BuildPrompt(context, query))
         == [Instruction, ""] + SplitOn('\n', context) + ["", "Question: " + query, "Answer:", ""]
  {
    var question := "Question: " + query;
    var tail := ['\n'] + question + AnswerCue;
    PromptShape(context, query);
    InstructionIsOneLine();
    SplitOnAfterPiece('\n', Instruction, ['\n'] + (context + ['\n'] + tail));
    SplitOnLeadingSep('\n', context + ['\n'] + tail);
    SplitOnAround('\n', context, tail);
    TailLines(question);
  }

  /** The prompt cut at the line breaks that surround the context. */
  lemma PromptShape(context: string, query: string)
    ensures BuildPrompt(context, query)
         == Instruction + ['\n'] + (['\n'] + (context + ['\n'] + (['\n'] + ("Question: " + query) + AnswerCue)))
  {
    assert "\n\n" == ['\n'] + ['\n'];
    Regroup(Instruction, "\n\n", context, "Question: ", query, AnswerCue, '\n');
  }

  /** The regrouping behind `PromptShape`, for any pieces. */
  lemma Regroup<T>(first: seq<T>, gap: seq<T>, middle: seq<T>, marker: seq<T>, query: seq<T>, rest: seq<T>, sep: T)
    requires gap == [sep] + [sep]
    ensures first + gap + middle + (gap + marker) + query + rest
         == first + [sep] + ([sep] + (middle + [sep] + ([sep] + (marker + query) + rest)))
  {
  }

  lemma InstructionText()
    ensures Instruction == "Use the following context to answer the question:"
  {
    assert "Use the " + "following " == "Use the following ";
    assert "Use the following " + "context to " == "Use the following context to ";
    assert "Use the following context to " + "answer the "
      == "Use the following context to answer the ";
  }

  /** The instruction is a single line. */
  lemma InstructionIsOneLine()
    ensures '\n' !in Instruction
  {
  }

  /** The lines after the context: a blank line, the question, the answer cue and
      the empty remainder after the final line break. */
  lemma TailLines(question: string)
    requires '\n' !in question
    ensures SplitOn('\n', ['\n'] + question + AnswerCue) == ["", question, "Answer:", ""]
  {
    var answer := "Answer:";
    var last := answer + ['\n'] + [];
    var middle := question + ['\n'] + last;
    assert "\n" == ['\n'];
    RegroupTail(question, answer, '\n');
    SplitOnAfterPiece('\n', answer, []);
    SplitOnAfterPiece('\n', question, last);
    SplitOnLeadingSep('\n', middle);
    assert SplitOn('\n', []) == [[]];
    FourLines([], question, answer, []);
  }

  lemma FourLines<T>(a: T, b: T, c: T, d: T)
    ensures [a] + ([b] + ([c] + [d])) == [a, b, c, d]
  {
  }

  /** The regrouping behind `TailLines`, for any pieces. */
  lemma RegroupTail<T>(question: seq<T>, answer: seq<T>, sep: T)
    ensures [sep] + question + ([sep] + answer + [sep])
         == [sep] + (question + [sep] + (answer + [sep] + []))
  {
  }

  /** When the store finds nothing a prompt is still produced: its context is
      a single empty line between the instruction and the question. */
  lemma EmptyMatchesPrompt<S>(query: string)
    requires '\n' !in query
    ensures SplitOn('\n', RagPrompt<S>(query, []))
         == [Instruction, "", "", "", "Question: " + query, "Answer:", ""]
  {
    PromptLines("", query);
  }
}
