/**
 * `use_prompt_template` (ar/views.py): the system instruction, a labelled
 * block with both reference contents and the user's question, joined in a
 * fixed order.
 */
module Prompt {
  import opened Retrieval

  /** `SYS_PROMPT`, including the leading newline and the indentation of the triple-quoted literal. */
  const SysPrompt: string :=
    "\n            你是一位專業的雲端架構師，請根據官方文件回答使用者的問題，回答的越詳細越好，"
    + "\n            目標是使用者根據你提供的步驟一個一個完成後即可解決使用者提出的問題。"
    + "\n            "
    + "\n            注意:"
    + "\n                1. 盡可能照著官方文件的步驟呈現完整的範例，避免出現無關緊要的回答，但不要出現參考了哪份檔案之類的字眼。"
    + "\n                2. 若在回答之中有些專有名詞或特殊指令，也給出一些解釋。"
    + "\n            "

  /** The literal pieces of the `RAG_INFO` f-string and of the template around `{QUERY}`. */
  const FirstLabel: string := "\n\n第一個參考資訊："
  const SecondLabel: string := "; \n第二個參考資訊："
  const InfoEnd: string := ";\n\n"
  const QuestionLabel: string := " \n\n使用者的問題: "

  /** Where the first reference's content starts in a prompt with system text `sys`. */
  function FirstAt(sys: string): nat {
    |sys| + |FirstLabel|
  }

  /** `RAG_INFO`: both contents, each after its label. */
  function RagInfo(fst: string, snd: string): string {
    FirstLabel + fst + SecondLabel + snd + InfoEnd
  }

  /**
   * The template `{SYS_PROMPT}{RAG_INFO} \n\n使用者的問題: {QUERY}` filled in
   * with system text `sys`. The result starts with `sys`, carries the first
   * content and then, later, the second, and ends with the question as it
   * was given.
   */
  function FillTemplate(sys: string, fst: string, snd: string, query: string): (p: string)
    ensures sys <= p
    ensures var i := FirstAt(sys);
      var j := i + |fst| + |SecondLabel|;
      && j + |snd| <= |p| - |query|
      && p[i..i + |fst|] == fst
      && p[j..j + |snd|] == snd
    ensures |query| <= |p| && p[|p| - |query|..] == query
    ensures |p| == |sys| + |FirstLabel| + |fst| + |SecondLabel| + |snd| + |InfoEnd| + |QuestionLabel| + |query|
  {
    var head := sys + FirstLabel;
    var tail := InfoEnd + QuestionLabel + query;
    var p := head + fst + SecondLabel + snd + tail;
    assert p == sys + RagInfo(fst, snd) + QuestionLabel + query;
    SliceOfConcat(head, fst, SecondLabel + snd + tail);
    SliceOfConcat(head + fst + SecondLabel, snd, tail);
    assert p == sys + (FirstLabel + fst + SecondLabel + snd + tail);
    assert p == (sys + RagInfo(fst, snd) + QuestionLabel) + query;
    p
  }

  lemma SliceOfConcat(x: string, y: string, z: string)
    ensures (x + y + z)[|x|..|x| + |y|] == y
  {
  }

  /** `use_prompt_template(fst_info, snd_info, user_query)`. */
  function ComposePrompt<S, V>(fst: Reference<S, V>, snd: Reference<S, V>, query: string): (p: string)
    ensures SysPrompt <= p
    ensures |p| == |SysPrompt| + |FirstLabel| + |fst.content| + |SecondLabel| + |snd.content|
                   + |InfoEnd| + |QuestionLabel| + |query|
    ensures var i := FirstAt(SysPrompt);
      p[i..i + |fst.content|] == fst.content
      && p[i + |fst.content| + |SecondLabel|..i + |fst.content| + |SecondLabel| + |snd.content|] == snd.content
    ensures |query| <= |p| && p[|p| - |query|..] == query
  {
    FillTemplate(SysPrompt, fst.content, snd.content, query)
  }

  /**
   * The prompt determines its inputs: two prompts over the same system text
   * that agree, built from contents of the same lengths, come from the same
   * contents and the same question.
   */
  lemma FillTemplateInjective(sys: string, f1: string, s1: string, q1: string, f2: string, s2: string, q2: string)
    requires |f1| == |f2| && |s1| == |s2|
    requires FillTemplate(sys, f1, s1, q1) == FillTemplate(sys, f2, s2, q2)
    ensures f1 == f2 && s1 == s2 && q1 == q2
  {
    var p := FillTemplate(sys, f1, s1, q1);
    var i := FirstAt(sys);
    var j := i + |f1| + |SecondLabel|;
    assert p[i..i + |f1|] == f1 && p[i..i + |f2|] == f2;
    assert p[j..j + |s1|] == s1 && p[j..j + |s2|] == s2;
    assert |q1| == |q2|;
  }
}
