/** Retrieval and prompt assembly of rag_answer.py.

    The query embedding and the FAISS search are not modelled: the row of
    indices that `index.search` returns for the query is an input. The chat
    completion that consumes the prompt is not modelled either. */
module RagAnswer {
  import BuildIndex

  /** `top_k` of `retrieve_chunks` by default, and what `answer_question` asks for. */
  const DefaultTopK: nat := 3

  /** The delimiter `build_rag_prompt` puts between retrieved chunks. */
  const Separator: string := "\n\n---\n\n"

  /** The instruction line that opens the prompt (written as two literals,
      which keeps its first character cheap for the verifier to read). */
  const Preamble: string :=
    "You are an assistant that answers " + "questions using ONLY the information in the provided context."
  const ContextHeader: string := "\n\nCONTEXT:\n"
  const QuestionHeader: string := "\n\nQUESTION:\n"
  const RulesHeader: string := "\n\nRULES:\n"

  /** What the model is told to answer when the context lacks the answer. */
  const Sentinel: string := "I don't know."

  const AnswerRule: string := "- Answer ONLY using the context.\n"
  const UnknownRule: string := "- If the answer is not in the context, say \"" + Sentinel + "\"\n"
  const LastRule: string := "- Be concise and clear."

  // ---------------------------------------------------------------------
  // str.join and str.strip

  /** `sep.join(parts)`. */
  function Join(sep: string, parts: seq<string>): string
  {
    if parts == [] then []
    else if |parts| == 1 then parts[0]
    else parts[0] + sep + Join(sep, parts[1..])
  }

  /** Python's `str.isspace` for one character: the characters `str.strip()`
      removes when called without arguments. */
  predicate IsSpace(c: char)
  {
    c == ' ' || '\t' <= c <= '\r' || '\U{1C}' <= c <= '\U{1F}' || c == '\U{85}' || c == '\U{A0}'
    || c == '\U{1680}' || '\U{2000}' <= c <= '\U{200A}' || c == '\U{2028}' || c == '\U{2029}'
    || c == '\U{202F}' || c == '\U{205F}' || c == '\U{3000}'
  }

  /** Drops the leading whitespace: the result is the suffix of `s` that
      starts at its first non-space character. */
  function StripLeading(s: string): (r: string)
    ensures |r| <= |s| && r == s[|s| - |r|..]
    ensures forall k :: 0 <= k < |s| - |r| ==> IsSpace(s[k])
    ensures r == [] || !IsSpace(r[0])
  {
    if |s| > 0 && IsSpace(s[0]) then StripLeading(s[1..]) else s
  }

  /** Drops the trailing whitespace: the result is the prefix of `s` that
      ends at its last non-space character. */
  function StripTrailing(s: string): (r: string)
    ensures |r| <= |s| && r == s[..|r|]
    ensures forall k :: |r| <= k < |s| ==> IsSpace(s[k])
    ensures r == [] || !IsSpace(r[|r| - 1])
  {
    if |s| > 0 && IsSpace(s[|s| - 1]) then StripTrailing(s[..|s| - 1]) else s
  }

  /** `str.strip()`. */
  function Strip(s: string): string
  {
    StripTrailing(StripLeading(s))
  }

  // ---------------------------------------------------------------------
  // build_rag_prompt

  /** The prompt text between the template's framing newlines. */
  function Body(context: string, question: string): string
  {
    Preamble + ContextHeader + context + QuestionHeader + question + RulesHeader
    + AnswerRule + UnknownRule + LastRule
  }

  /** The f-string of `build_rag_prompt` before stripping: it opens and
      closes with a newline. */
  function Template(context: string, question: string): string
  {
    "\n" + Body(context, question) + "\n"
  }

  /** build_rag_prompt: the chunks joined by the separator, placed in the
      template, stripped. Stripping removes exactly the template's framing
      newlines, whatever whitespace the chunks or the question carry. */
  function BuildRagPrompt(retrievedChunks: seq<string>, question: string): (prompt: string)
    ensures prompt == Body(Join(Separator, retrievedChunks), question)
  {
    var context := Join(Separator, retrievedChunks);
    BodyEnds(context, question);
    StripFraming(Body(context, question));
    Strip(Template(context, question))
  }

  /** The body starts with the 'Y' of the preamble and ends with the '.' of
      the last rule. */
  lemma BodyEnds(context: string, question: string)
    ensures var body := Body(context, question);
            |body| > 0 && body[0] == 'Y' && body[|body| - 1] == '.'
  {
    assert Preamble[0] == 'Y';
    assert LastRule[|LastRule| - 1] == '.';
    TemplateFirstAndLast(Preamble, ContextHeader, context, QuestionHeader, question,
                         RulesHeader, AnswerRule, UnknownRule, LastRule);
  }

  /** A template whose opening and closing parts are non-empty starts with
      the opening's first character and ends with the closing's last one. */
  lemma TemplateFirstAndLast(pre: string, ctxHead: string, ctx: string, qHead: string, q: string,
                     rulesHead: string, r1: string, r2: string, r3: string)
    requires |pre| > 0 && |r3| > 0
    ensures var s := pre + ctxHead + ctx + qHead + q + rulesHead + r1 + r2 + r3;
            |s| > 0 && s[0] == pre[0] && s[|s| - 1] == r3[|r3| - 1]
  {
  }

  /** Stripping a text framed by single newlines whose first and last
      characters are not whitespace gives back the text. */
  lemma StripFraming(body: string)
    requires |body| > 0 && !IsSpace(body[0]) && !IsSpace(body[|body| - 1])
    ensures Strip("\n" + body + "\n") == body
  {
    var framed := "\n" + body + "\n";
    assert framed[1..] == body + "\n";
    var lead := StripLeading(framed);
    assert StripLeading(body + "\n") == body + "\n";
    assert lead == body + "\n";
    assert lead[..|lead| - 1] == body;
  }

  // ---------------------------------------------------------------------
  // retrieve_chunks and answer_question

  /** retrieve_chunks after the search: the texts of the returned indices,
      in the order FAISS ranked them. FAISS returns exactly `top_k` indices
      for the query. */
  method RetrieveChunks(chunks: seq<BuildIndex.ChunkSource>, indices: seq<int>, topK: nat := DefaultTopK)
    returns (retrieved: seq<string>)
    requires |indices| == topK
    requires forall j :: 0 <= j < |indices| ==> 0 <= indices[j] < |chunks|
    ensures |retrieved| == topK
    ensures forall j :: 0 <= j < |indices| ==> retrieved[j] == chunks[indices[j]].text
  {
    retrieved := [];
    for j := 0 to |indices|
      invariant |retrieved| == j
      invariant forall k :: 0 <= k < j ==> retrieved[k] == chunks[indices[k]].text
    {
      var idx := indices[j];
      retrieved := retrieved + [chunks[idx].text];
    }
  }

  /** answer_question up to the chat call: retrieve the top 3 chunks and
      build the prompt that is sent to the model. */
  method AnswerPrompt(chunks: seq<BuildIndex.ChunkSource>, question: string, indices: seq<int>)
    returns (prompt: string)
    requires |indices| == DefaultTopK
    requires forall j :: 0 <= j < |indices| ==> 0 <= indices[j] < |chunks|
    ensures prompt == BuildRagPrompt([chunks[indices[0]].text, chunks[indices[1]].text,
                                      chunks[indices[2]].text], question)
  {
    var retrieved := RetrieveChunks(chunks, indices, topK := 3);
    assert retrieved == [retrieved[0], retrieved[1], retrieved[2]];
    prompt := BuildRagPrompt(retrieved, question);
  }

  // ---------------------------------------------------------------------
  // Properties of the context and the prompt

  /** No chunks give an empty context; one chunk is the context unchanged. */
  lemma JoinDegenerate(sep: string, chunk: string)
    ensures Join(sep, []) == []
    ensures Join(sep, [chunk]) == chunk
  {
  }

  /** Joining splits at every boundary: the parts before position `i`,
      one separator, then the parts from `i` on. So the chunks appear in
      ranked order, separated by exactly one separator each. */
  lemma {:induction false} JoinSplit(sep: string, parts: seq<string>, i: nat)
    requires 0 < i < |parts|
    ensures Join(sep, parts) == Join(sep, parts[..i]) + sep + Join(sep, parts[i..])
  {
    if i > 1 {
      JoinSplit(sep, parts[1..], i - 1);
      assert parts[1..][..i - 1] == parts[..i][1..];
      assert parts[1..][i - 1..] == parts[i..];
    }
  }

  /** Total length of the parts. */
  function TotalLength(parts: seq<string>): nat
  {
    if parts == [] then 0 else |parts[0]| + TotalLength(parts[1..])
  }

  /** The context holds the chunks and one separator between each pair. */
  lemma {:induction false} JoinLength(sep: string, parts: seq<string>)
    requires parts != []
    ensures |Join(sep, parts)| == TotalLength(parts) + (|parts| - 1) * |sep|
  {
    if |parts| > 1 {
      JoinLength(sep, parts[1..]);
    }
  }

  // Where each slot of the template lies, stated over arbitrary strings so
  // that the literal parts of the template are not unfolded.

  /** The template opens with its preamble and closes with its last rule. */
  lemma TemplateOpensAndCloses(pre: string, ctxHead: string, ctx: string, qHead: string, q: string,
                     rulesHead: string, r1: string, r2: string, r3: string)
    ensures var s := pre + ctxHead + ctx + qHead + q + rulesHead + r1 + r2 + r3;
            |pre| + |r3| <= |s| && s[..|pre|] == pre && s[|s| - |r3|..] == r3
  {
  }

  /** The context slot lies between the context header and the question header. */
  lemma TemplateContextSlot(pre: string, ctxHead: string, ctx: string, qHead: string, q: string,
                     rulesHead: string, r1: string, r2: string, r3: string)
    ensures var s := pre + ctxHead + ctx + qHead + q + rulesHead + r1 + r2 + r3;
            var c := |pre| + |ctxHead|;
            c + |ctx| + |qHead| <= |s| &&
            s[|pre|..c] == ctxHead && s[c..c + |ctx|] == ctx && s[c + |ctx|..c + |ctx| + |qHead|] == qHead
  {
  }

  /** The question slot follows the question header. */
  lemma TemplateQuestionSlot(pre: string, ctxHead: string, ctx: string, qHead: string, q: string,
                     rulesHead: string, r1: string, r2: string, r3: string)
    ensures var s := pre + ctxHead + ctx + qHead + q + rulesHead + r1 + r2 + r3;
            var k := |pre| + |ctxHead| + |ctx| + |qHead|;
            k + |q| <= |s| && s[k..k + |q|] == q
  {
  }

  /** The rules header follows the question slot. */
  lemma TemplateRulesAfterQuestion(pre: string, ctxHead: string, ctx: string, qHead: string, q: string,
                     rulesHead: string, r1: string, r2: string, r3: string)
    ensures var s := pre + ctxHead + ctx + qHead + q + rulesHead + r1 + r2 + r3;
            var k := |pre| + |ctxHead| + |ctx| + |qHead| + |q|;
            k + |rulesHead| <= |s| && s[k..k + |rulesHead|] == rulesHead
  {
  }

  // The lemmas below are stated over Body: by BuildRagPrompt's contract the
  // prompt `build_rag_prompt(chunks, question)` returns is
  // Body(Join(Separator, chunks), question), whatever the chunks are.

  /** The prompt opens with the instruction line and closes with the last rule. */
  lemma PromptFraming(context: string, question: string)
    ensures var prompt := Body(context, question);
            |Preamble| + |LastRule| <= |prompt| &&
            prompt[..|Preamble|] == Preamble &&
            prompt[|prompt| - |LastRule|..] == LastRule
  {
    TemplateOpensAndCloses(Preamble, ContextHeader, context, QuestionHeader, question,
                           RulesHeader, AnswerRule, UnknownRule, LastRule);
  }

  /** The context comes right after "CONTEXT:\n" and right before the
      question header. */
  lemma PromptContext(context: string, question: string)
    ensures var prompt := Body(context, question);
            var c := |Preamble| + |ContextHeader|;
            c + |context| + |QuestionHeader| <= |prompt| &&
            prompt[|Preamble|..c] == ContextHeader &&
            prompt[c..c + |context|] == context &&
            prompt[c + |context|..c + |context| + |QuestionHeader|] == QuestionHeader
  {
    TemplateContextSlot(Preamble, ContextHeader, context, QuestionHeader,
                        question, RulesHeader, AnswerRule, UnknownRule, LastRule);
  }

  /** The question comes right after "QUESTION:\n" and right before the
      rules header. */
  lemma PromptQuestion(context: string, question: string)
    ensures var prompt := Body(context, question);
            var q := |Preamble| + |ContextHeader| + |context| + |QuestionHeader|;
            q + |question| + |RulesHeader| <= |prompt| &&
            prompt[q..q + |question|] == question &&
            prompt[q + |question|..q + |question| + |RulesHeader|] == RulesHeader
  {
    TemplateQuestionSlot(Preamble, ContextHeader, context, QuestionHeader,
                         question, RulesHeader, AnswerRule, UnknownRule, LastRule);
    TemplateRulesAfterQuestion(Preamble, ContextHeader, context, QuestionHeader,
                               question, RulesHeader, AnswerRule, UnknownRule, LastRule);
  }

  /** `needle` occurs in `hay`. */
  ghost predicate Contains(hay: string, needle: string)
  {
    exists before, after :: hay == before + needle + after
  }

  lemma ContainsMiddle(a: string, b: string, c: string)
    ensures Contains(a + b + c, b)
  {
  }

  /** Whatever the chunks and the question, the prompt contains the literal
      "I don't know." inside the rules. */
  lemma PromptHasSentinel(context: string, question: string)
    ensures Contains(Body(context, question), Sentinel)
  {
    var lead := "- If the answer is not in the context, say \"";
    var trail := "\"\n";
    var head := Preamble + ContextHeader + context + QuestionHeader
                + question + RulesHeader + AnswerRule;
    Regroup(head, lead, Sentinel, trail, LastRule);
    ContainsMiddle(head + lead, Sentinel, trail + LastRule);
  }

  lemma Regroup(head: string, lead: string, mid: string, trail: string, last: string)
    ensures head + (lead + mid + trail) + last == (head + lead) + mid + (trail + last)
  {
  }
}
