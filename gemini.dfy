/** The Gemini adapter's local logic: the history conversion into Gemini's
    `user`/`model` contents, the system instruction taken from a leading
    system message, the refusal of an empty history and the finish-reason
    mapping. Each Gemini entry carries a single text part, modelled as the
    message content. */
module Gemini {
  import opened Text
  import opened Messages

  const ContinueText := "(Continue)"
  const EmptyHistoryError := "Empty message history."

  /** "assistant" and "model" are the model's; every other role is the user's. */
  function GeminiRole(role: string): (r: string)
    ensures r in {"user", "model"}
    ensures r == "model" <==> role in {"assistant", "model"}
  {
    if role == "assistant" || role == "model" then "model"
    else if role == "user" then "user"
    else "user"
  }

  /** The merged history, followed by a user "(Continue)" entry when it would
      otherwise end with the model. */
  function WithTrailingUser(merged: seq<Message>): seq<Message> {
    if merged != [] && merged[|merged| - 1].role == "model" then merged + [Message("user", ContinueText)] else merged
  }

  /** What `_convert_messages` returns. */
  function Converted(msgs: seq<Message>): seq<Message> {
    WithTrailingUser(Merged(MapRoles(msgs, GeminiRole)))
  }

  /** `Client._convert_messages` */
  method ConvertMessages(msgs: seq<Message>) returns (out: seq<Message>)
    ensures out == Converted(msgs)
  {
    out := MergeConsecutive(msgs, GeminiRole);
    if out != [] && out[|out| - 1].role == "model" {
      out := out + [Message("user", ContinueText)];
    }
  }

  /** A converted history holds only user and model entries, none empty, and
      never ends with the model. */
  lemma ConvertedShape(msgs: seq<Message>)
    ensures var out := Converted(msgs);
      && (out != [] ==> out[|out| - 1].role == "user")
      && NoEmptyContent(out)
      && RolesIn(out, {"user", "model"})
  {
    var mapped := MapRoles(msgs, GeminiRole);
    assert RolesIn(mapped, {"user", "model"});
    MergedRoles(mapped, {"user", "model"});
  }

  /** The converted history is empty exactly when every content is empty. */
  lemma ConvertedEmptyIff(msgs: seq<Message>)
    ensures Converted(msgs) == [] <==> NonEmpty(Contents(msgs)) == []
  {
    var mapped := MapRoles(msgs, GeminiRole);
    MergedEmptyIff(mapped);
    assert Contents(mapped) == Contents(msgs);
  }

  /** Apart from a trailing "(Continue)", the converted history carries
      exactly the non-empty contents, in order. */
  lemma ConvertedText(msgs: seq<Message>)
    ensures var text := Join("\n", NonEmpty(Contents(msgs)));
      var out := Converted(msgs);
      var joined := Join("\n", Contents(out));
      joined == text || (out != [] && out[|out| - 1] == Message("user", ContinueText) && joined == text + "\n" + ContinueText)
  {
    var mapped := MapRoles(msgs, GeminiRole);
    var merged := Merged(mapped);
    MergedText(mapped);
    assert Contents(mapped) == Contents(msgs);
    if merged != [] && merged[|merged| - 1].role == "model" {
      assert Converted(msgs) == merged + [Message("user", ContinueText)];
      AppendedText(merged, Message("user", ContinueText));
    } else {
      assert Converted(msgs) == merged;
    }
  }

  /** The system instruction and the rest of the history: a leading system
      message is taken out of the history. */
  function SplitSystem(msgs: seq<Message>): (r: (Option<string>, seq<Message>))
    ensures r.0.Some? <==> msgs != [] && msgs[0].role == "system"
    ensures r.0.Some? ==> r.0.value == msgs[0].content && [msgs[0]] + r.1 == msgs
    ensures r.0.None? ==> r.1 == msgs
  {
    if msgs != [] && msgs[0].role == "system" then (Some(msgs[0].content), msgs[1..]) else (None, msgs)
  }

  /** The check `generate` makes before calling the SDK: an error reply for an
      empty converted history, nothing otherwise. */
  function Precheck(msgs: seq<Message>): (r: Option<Reply>)
    ensures r.Some? ==> r.value == ErrorReply(EmptyHistoryError)
  {
    if Converted(SplitSystem(msgs).1) == [] then Some(ErrorReply(EmptyHistoryError)) else None
  }

  /** `generate` refuses the request exactly when nothing but a system
      instruction and empty messages was given. */
  lemma PrecheckRefusesIff(msgs: seq<Message>)
    ensures Precheck(msgs).Some? <==> NonEmpty(Contents(SplitSystem(msgs).1)) == []
  {
    ConvertedEmptyIff(SplitSystem(msgs).1);
  }

  /** The candidate's finish reason as an OpenAI-style finish reason. */
  function MapFinishReason(reason: string): (r: string)
    ensures r != "STOP" && r != "MAX_TOKENS"
  {
    if reason == "STOP" then "stop" else if reason == "MAX_TOKENS" then "length" else reason
  }

  /** The mapping is a projection: mapping again changes nothing; only
      "STOP" and "MAX_TOKENS" are rewritten. */
  lemma MapFinishReasonProjection(reason: string)
    ensures MapFinishReason(MapFinishReason(reason)) == MapFinishReason(reason)
    ensures MapFinishReason(reason) == "stop" <==> reason in {"STOP", "stop"}
    ensures MapFinishReason(reason) == "length" <==> reason in {"MAX_TOKENS", "length"}
    ensures reason !in {"STOP", "MAX_TOKENS"} ==> MapFinishReason(reason) == reason
  {
  }
}
