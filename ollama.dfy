/** The Ollama adapter's local logic: the model name behind the `ollama.`
    prefix, the history conversion, the refusal of an empty list and the
    finish reason derived from the response's `done` flag. */
module Ollama {
  import opened Text
  import opened Messages

  const Prefix := "ollama."
  const EmptyListError := "Empty message list."

  /** `Client._get_model_name`: the configured name without a leading
      "ollama.", or the name unchanged. */
  function ModelName(configured: string): (r: string)
    ensures StartsWith(configured, Prefix) ==> Prefix + r == configured
    ensures !StartsWith(configured, Prefix) ==> r == configured
  {
    if StartsWith(configured, Prefix) then configured[7..] else configured
  }

  /** Prefixing a name with "ollama." and taking the model name back gives
      the name. */
  lemma ModelNameOfPrefixed(name: string)
    ensures ModelName(Prefix + name) == name
  {
    assert (Prefix + name)[..|Prefix|] == Prefix;
  }

  /** System, user and assistant are kept; every other role becomes user. */
  function OllamaRole(role: string): (r: string)
    ensures r in {"system", "user", "assistant"}
    ensures r == role <==> role in {"system", "user", "assistant"}
  {
    if role !in {"system", "user", "assistant"} then "user" else role
  }

  /** What `_convert_messages` returns. */
  function Converted(msgs: seq<Message>): seq<Message> {
    Merged(MapRoles(msgs, OllamaRole))
  }

  /** `Client._convert_messages` */
  method ConvertMessages(msgs: seq<Message>) returns (out: seq<Message>)
    ensures out == Converted(msgs)
  {
    out := MergeConsecutive(msgs, OllamaRole);
  }

  /** A converted list holds only system, user and assistant messages, none
      empty, and carries exactly the non-empty contents, in order. */
  lemma ConvertedShape(msgs: seq<Message>)
    ensures NoEmptyContent(Converted(msgs))
    ensures RolesIn(Converted(msgs), {"system", "user", "assistant"})
    ensures Join("\n", Contents(Converted(msgs))) == Join("\n", NonEmpty(Contents(msgs)))
  {
    var mapped := MapRoles(msgs, OllamaRole);
    assert RolesIn(mapped, {"system", "user", "assistant"});
    MergedRoles(mapped, {"system", "user", "assistant"});
    MergedText(mapped);
    assert Contents(mapped) == Contents(msgs);
  }

  /** The check `generate` makes before calling the SDK. */
  function Precheck(msgs: seq<Message>): (r: Option<Reply>)
    ensures r.Some? ==> r.value == ErrorReply(EmptyListError)
  {
    if Converted(msgs) == [] then Some(ErrorReply(EmptyListError)) else None
  }

  /** `generate` refuses the request exactly when every content is empty. */
  lemma PrecheckRefusesIff(msgs: seq<Message>)
    ensures Precheck(msgs).Some? <==> NonEmpty(Contents(msgs)) == []
  {
    var mapped := MapRoles(msgs, OllamaRole);
    MergedEmptyIff(mapped);
    assert Contents(mapped) == Contents(msgs);
  }

  /** The finish reason: "stop" when the response is done, else "unknown". */
  function DoneReason(done: bool): (r: string)
    ensures r == "stop" <==> done
    ensures r in {"stop", "unknown"}
  {
    if done then "stop" else "unknown"
  }
}
