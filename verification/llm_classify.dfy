/** Classifying one paper with the chat model, with a fixed fallback when the
    call or the shape of its answer fails. The synchronous and asynchronous
    variants differ only in how the model is awaited, so one function models
    both. */
module LlmClassify {
  import opened Base
  import opened Values

  /** What the chat model's `invoke` gives back: a failure (any exception),
      or a response whose `content` and `usage_metadata` are dictionaries
      (`None` here when they are not, so that `.get` fails). */
  datatype LlmReply =
    | Failed(error: string)
    | Response(content: Option<map<string, Value>>, usage: Option<map<string, Value>>)

  /** The returned tuple, in its order: (prediction, reasoning, total tokens,
      input tokens, output tokens). */
  datatype Classification = Classification(
    prediction: Value, reasoning: Value, totalTokens: Value, inputTokens: Value, outputTokens: Value)

  const NotClassified: string := "no_classified"

  /** The tuple every failure yields. */
  const Fallback: Classification :=
    Classification(Str(NotClassified), Str("Error processing the application."), Int(0), Int(0), Int(0))

  /** Python's `dict.get(key)`: the value, or None. */
  function Get(d: map<string, Value>, key: string): (v: Value)
    ensures key !in d ==> v == Null
    ensures key in d ==> v == d[key]
  {
    if key in d then d[key] else Null
  }

  /** The reply can be read: the call succeeded and both parts are dictionaries. */
  predicate Readable(reply: LlmReply) {
    reply.Response? && reply.content.Some? && reply.usage.Some?
  }

  /** `classify_paper_sync` / `classify_paper_async` on the model's reply. */
  function Classify(reply: LlmReply): (c: Classification)
    ensures !Readable(reply) ==> c == Fallback
    ensures Readable(reply) ==> (
      c.prediction == Get(reply.content.value, "prediction")
      && c.reasoning == Get(reply.content.value, "reasoning")
      && c.totalTokens == Get(reply.usage.value, "total_tokens")
      && c.inputTokens == Get(reply.usage.value, "input_tokens")
      && c.outputTokens == Get(reply.usage.value, "output_tokens"))
  {
    match reply
    case Response(Some(content), Some(usage)) =>
      Classification(Get(content, "prediction"), Get(content, "reasoning"),
        Get(usage, "total_tokens"), Get(usage, "input_tokens"), Get(usage, "output_tokens"))
    case _ => Fallback
  }

  /** The `flag_complete` a labelling run stores: true exactly when the
      prediction is not the fallback marker. */
  predicate Complete(prediction: Value) {
    prediction != Str(NotClassified)
  }

  /** A failed classification is never marked complete, and a readable reply
      is complete exactly when its prediction differs from the marker. */
  lemma CompleteIffClassified(reply: LlmReply)
    ensures !Readable(reply) ==> !Complete(Classify(reply).prediction)
    ensures Readable(reply) ==> (Complete(Classify(reply).prediction) <==>
      Get(reply.content.value, "prediction") != Str(NotClassified))
  {
  }
}
