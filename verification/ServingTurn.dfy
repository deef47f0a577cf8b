/** benchmark/hicache/bench_serving.py, `RequestFuncInput` and the turn bookkeeping of
    `async_request_openai_completions`, which update one conversation in place. */
module ServingTurn {
  import opened Serving
  import opened ServingResults

  class RequestFuncInput {
    var prompts: seq<Turn>
    var prevMessages: seq<Message>
    var finishedPrompts: nat

    constructor (prompts: seq<Turn>)
      ensures View() == Conversation(prompts, [], 0)
    {
      this.prompts, prevMessages, finishedPrompts := prompts, [], 0;
    }

    ghost function View(): Conversation
      reads this
    {
      Conversation(prompts, prevMessages, finishedPrompts)
    }

    /** Appends the user message and computes the prompt length: for a conversation in good order
        that is the real length of all earlier exchanges plus the new input. */
    method BeginTurn(ghost ts: seq<Turn>, ghost replies: seq<Reply>) returns (promptLen: int)
      requires Consistent(ts, replies, View(), false, false) && |replies| < |ts|
      modifies this
      ensures Consistent(ts, replies, View(), true, false)
      ensures prompts == old(prompts) && finishedPrompts == old(finishedPrompts)
      ensures promptLen == Context(ts, replies, |replies|) + ts[|replies|].inputLen
    {
      promptLen := 0;
      for k := 0 to finishedPrompts
        invariant promptLen == Spent(prompts, k)
      {
        promptLen := promptLen + prompts[k].inputLen + prompts[k].outputLen;
      }
      SpentIsContext(ts, replies, |replies|);
      promptLen := promptLen + prompts[finishedPrompts].inputLen;
      prevMessages := prevMessages + [User(prompts[finishedPrompts].prompt)];
    }

    /** Records a successful answer; the result says whether the conversation is put back. */
    method FinishTurn(text: string, outputLen: int) returns (again: bool)
      requires finishedPrompts < |prompts|
      modifies this
      ensures View() == Answered(old(View()), Reply(text, outputLen))
      ensures again <==> old(finishedPrompts) + 1 < |prompts|
    {
      var k := finishedPrompts;
      prompts := prompts[k := Turn(prompts[k].prompt, prompts[k].inputLen, outputLen)];
      prevMessages := prevMessages + [Assistant(text)];
      again := k + 1 < |prompts|;
      if again { finishedPrompts := k + 1; }
    }
  }
}
