/** The request `CryptoAnalyzer.analyze_with_groq` sends to the chat model:
    a fixed system prompt, then the filtered news behind a fixed prefix. The
    call itself and the reply are outside this model. */
module AnalysisPrompt {
  import opened Wrappers

  /** One `{"role": ..., "content": ...}` entry of the message list. */
  datatype Message = Message(role: string, content: string)

  /** The arguments of `chat.completions.create`. */
  datatype ChatRequest = ChatRequest(model: string, messages: seq<Message>)

  const ModelId: string := "llama-3.1-70b-versatile"

  /** The analyst instructions, byte for byte: the source's triple-quoted
      literal keeps the method body's indentation (seven spaces) on every
      line after the first, and two trailing spaces after "advice". */
  const SystemPrompt: string :=
    "You are a cryptocurrency market analyst. Analyze the provided news content and:\n"
    + "       1. Identify key market signals (bullish/bearish)\n"
    + "       2. Provide specific asset allocation advice  \n"
    + "       3. Highlight any significant risks or opportunities\n"
    + "       4. Give actionable recommendations\n"
    + "       \n"
    + "       Format your response as a structured analysis with clear sections."

  const UserPrefix: string :=
    "Based on this recent crypto news, provide market analysis and recommendations:\n\n"

  /** The user message: the fixed prefix, then the content verbatim. */
  function AugmentedQuery(content: string): (q: string)
    ensures |q| == |UserPrefix| + |content|
    ensures UserPrefix <= q && q[|UserPrefix|..] == content
  {
    UserPrefix + content
  }

  /** The request for `content`: the model name and exactly two messages,
      system then user. */
  function BuildRequest(content: string): (r: ChatRequest)
    ensures r.model == ModelId
    ensures |r.messages| == 2
    ensures r.messages[0] == Message("system", SystemPrompt)
    ensures r.messages[1].role == "user"
    ensures UserPrefix <= r.messages[1].content
    ensures r.messages[1].content[|UserPrefix|..] == content
  {
    ChatRequest(ModelId, [Message("system", SystemPrompt), Message("user", AugmentedQuery(content))])
  }

  /** Reads the news content back out of a request shaped like the ones
      `BuildRequest` makes, and refuses any other shape. */
  function ContentOf(r: ChatRequest): (c: Option<string>)
    ensures c.Some? ==> |r.messages| == 2 && r.messages[1].role == "user"
                        && r.messages[1].content == UserPrefix + c.value
  {
    if |r.messages| == 2 && r.messages[0] == Message("system", SystemPrompt)
       && r.messages[1].role == "user" && UserPrefix <= r.messages[1].content
    then
      var q := r.messages[1].content;
      assert q == q[..|UserPrefix|] + q[|UserPrefix|..];
      Some(q[|UserPrefix|..])
    else None
  }

  /** The content is recovered exactly from the request built for it. */
  lemma RecoverContent(content: string)
    ensures ContentOf(BuildRequest(content)) == Some(content)
  {
    var q := BuildRequest(content).messages[1].content;
    assert q[|UserPrefix|..] == content;
  }

  /** Different content, different request: nothing of the news is lost or
      merged on the way to the model. */
  lemma BuildRequestInjective(a: string, b: string)
    ensures BuildRequest(a) == BuildRequest(b) <==> a == b
  {
    if BuildRequest(a) == BuildRequest(b) {
      RecoverContent(a);
      RecoverContent(b);
    }
  }
}
