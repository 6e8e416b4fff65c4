/** `build_prompt` of llm.py: the fixed-template prompt sent to the language
    model, built from the user's question and the packed context. */
module Prompt {
  import opened Py

  /** The fixed instruction text of the `[SISTEMA]` section. */
  const System: string :=
    "Eres un asistente conciso. Responde SOLO usando la informaci\U{00F3}n del CONTEXTO. "
    + "Si no est\U{00E1} en el contexto, di que no lo sabes."

  /** Everything before the context. */
  const Head: string := "[SISTEMA]\n" + System + "\n\n" + "[CONTEXTO]\n"
  /** Everything between the context and the question. */
  const Mid: string := "\n\n" + "[PREGUNTA]\n"
  /** Everything after the question. */
  const Tail: string := "\n\n" + "[INSTRUCCIONES]\nResponde en espa\U{00F1}ol."

  /** `build_prompt(user_query, context)`. */
  function BuildPrompt(userQuery: string, context: string): (r: string)
    ensures |r| == |Head| + |Mid| + |Tail| + |context| + |userQuery|
    ensures StartsWith(r, "[SISTEMA]\n" + System + "\n\n")
    ensures r[|r| - |Tail|..] == Tail
  {
    Head + context + Mid + userQuery + Tail
  }

  /** Where each piece of `a + b + c + d + e` lies. */
  lemma Pieces<T>(a: seq<T>, b: seq<T>, c: seq<T>, d: seq<T>, e: seq<T>)
    ensures var r := a + b + c + d + e;
      var i := |a| + |b|;
      && r[..|a|] == a
      && r[|a|..i] == b
      && r[i..i + |c|] == c
      && r[i + |c|..|r| - |e|] == d
  {
  }

  /** The context sits right after "[CONTEXTO]\n", the question right after
      "[PREGUNTA]\n" that follows it; given the context's length both read
      back from the prompt. */
  lemma PromptParts(userQuery: string, context: string)
    ensures var r := BuildPrompt(userQuery, context);
      var c := |Head| + |context|;
      && r[..|Head|] == Head
      && Head[|Head| - |"[CONTEXTO]\n"|..] == "[CONTEXTO]\n"
      && r[|Head|..c] == context
      && r[c..c + |Mid|] == Mid
      && Mid[|Mid| - |"[PREGUNTA]\n"|..] == "[PREGUNTA]\n"
      && r[c + |Mid|..|r| - |Tail|] == userQuery
  {
    Pieces(Head, context, Mid, userQuery, Tail);
  }

  /** Prompts with contexts of the same length are equal only for equal
      arguments. */
  lemma PromptInjective(q1: string, c1: string, q2: string, c2: string)
    requires |c1| == |c2|
    requires BuildPrompt(q1, c1) == BuildPrompt(q2, c2)
    ensures q1 == q2 && c1 == c2
  {
    PromptParts(q1, c1);
    PromptParts(q2, c2);
  }

  /** Without that length, the prompt does not determine its arguments: a
      context that itself holds "\n\n[PREGUNTA]\n" can trade text with the
      question. */
  lemma PromptAmbiguous()
    ensures BuildPrompt("z", "x" + Mid + "y") == BuildPrompt("y" + Mid + "z", "x")
  {
  }
}
