/** The Anthropic adapter's local logic: converting an OpenAI-style history
    into Anthropic's `messages` list plus a separate system prompt, the
    refusal of an empty list before the SDK call, and the mapping of
    Anthropic's stop reasons onto OpenAI-style finish reasons. */
module Anthropic {
  import opened Text
  import opened Messages

  const Placeholder := "(System instructions were provided separately)"
  const EmptyListError := "Message list for Anthropic is empty or invalid."

  /** "user" stays "user"; every other role is spoken by the assistant. */
  function AnthropicRole(role: string): (r: string)
    ensures r in {"user", "assistant"}
    ensures r == "user" <==> role == "user"
  {
    if role == "user" then "user" else "assistant"
  }

  /** The messages left after taking a leading system message out. */
  function Body(msgs: seq<Message>): (r: seq<Message>)
    ensures |r| <= |msgs|
  {
    if msgs != [] && msgs[0].role == "system" then msgs[1..] else msgs
  }

  /** The system prompt: the content of a leading system message, if any. */
  function SystemPrompt(msgs: seq<Message>): (r: Option<string>)
    ensures r.Some? <==> msgs != [] && msgs[0].role == "system"
    ensures r.Some? ==> r.value == msgs[0].content
  {
    if msgs != [] && msgs[0].role == "system" then Some(msgs[0].content) else None
  }

  /** The merged list, led by a placeholder user message when it would
      otherwise open with the assistant. */
  function WithLeadingUser(merged: seq<Message>): seq<Message> {
    if merged != [] && merged[0].role != "user" then [Message("user", Placeholder)] + merged else merged
  }

  /** What `_convert_messages` returns. */
  function Converted(msgs: seq<Message>): (seq<Message>, Option<string>) {
    (WithLeadingUser(Merged(MapRoles(Body(msgs), AnthropicRole))), SystemPrompt(msgs))
  }

  /** `Client._convert_messages` */
  method ConvertMessages(msgs: seq<Message>) returns (out: seq<Message>, system: Option<string>)
    ensures (out, system) == Converted(msgs)
  {
    if msgs == [] {
      return [], None;
    }
    system := None;
    var rest := msgs;
    if msgs[0].role == "system" {
      system := Some(msgs[0].content);
      rest := msgs[1..];
    }
    out := MergeConsecutive(rest, AnthropicRole);
    if out != [] && out[0].role != "user" {
      out := [Message("user", Placeholder)] + out;
    }
  }

  /** A converted list is either empty or opens with a user message; it holds
      only user and assistant messages, none of them empty; the system
      prompt is taken out exactly when the history starts with one. */
  lemma ConvertedShape(msgs: seq<Message>)
    ensures var (out, system) := Converted(msgs);
      && (out != [] ==> out[0].role == "user")
      && NoEmptyContent(out)
      && RolesIn(out, {"user", "assistant"})
      && (system.Some? <==> msgs != [] && msgs[0].role == "system")
  {
    var mapped := MapRoles(Body(msgs), AnthropicRole);
    assert RolesIn(mapped, {"user", "assistant"});
    MergedRoles(mapped, {"user", "assistant"});
  }

  /** The converted list is empty exactly when every message after a leading
      system message has empty content: a history of only a system prompt,
      or of empty messages, is refused. */
  lemma ConvertedEmptyIff(msgs: seq<Message>)
    ensures Converted(msgs).0 == [] <==> NonEmpty(Contents(Body(msgs))) == []
  {
    var mapped := MapRoles(Body(msgs), AnthropicRole);
    MergedEmptyIff(mapped);
    assert Contents(mapped) == Contents(Body(msgs));
  }

  /** Apart from a leading placeholder, the converted list carries exactly
      the non-empty contents of the history, in order. */
  lemma ConvertedText(msgs: seq<Message>)
    ensures var text := Join("\n", NonEmpty(Contents(Body(msgs))));
      var joined := Join("\n", Contents(Converted(msgs).0));
      joined == text || (Converted(msgs).0 != [] && Converted(msgs).0[0] == Message("user", Placeholder) && joined == Placeholder + "\n" + text)
  {
    var mapped := MapRoles(Body(msgs), AnthropicRole);
    var merged := Merged(mapped);
    MergedText(mapped);
    assert Contents(mapped) == Contents(Body(msgs));
    if merged != [] && merged[0].role != "user" {
      ContentsAppend([Message("user", Placeholder)], merged);
      JoinConcat("\n", [Placeholder], Contents(merged));
      JoinEmptyIff("\n", Contents(merged));
    }
  }

  /** The check `generate` makes before calling the SDK: an error reply for an
      empty converted list, nothing otherwise. */
  function Precheck(msgs: seq<Message>): (r: Option<Reply>)
    ensures r.Some? ==> r.value == ErrorReply(EmptyListError)
  {
    if Converted(msgs).0 == [] then Some(ErrorReply(EmptyListError)) else None
  }

  /** `generate` refuses the request exactly when nothing but a system prompt
      and empty messages was given. */
  lemma PrecheckRefusesIff(msgs: seq<Message>)
    ensures Precheck(msgs).Some? <==> NonEmpty(Contents(Body(msgs))) == []
  {
    ConvertedEmptyIff(msgs);
  }

  /** `stop_reason` as an OpenAI-style finish reason. */
  function MapStopReason(reason: string): (r: string)
    ensures r != "end_turn" && r != "max_tokens"
  {
    if reason == "end_turn" then "stop" else if reason == "max_tokens" then "length" else reason
  }

  /** The mapping is a projection: mapping again changes nothing; a
      reason ends up "stop" exactly when it was "end_turn" or already
      "stop", and "length" exactly when it was "max_tokens" or "length". */
  lemma MapStopReasonProjection(reason: string)
    ensures MapStopReason(MapStopReason(reason)) == MapStopReason(reason)
    ensures MapStopReason(reason) == "stop" <==> reason in {"end_turn", "stop"}
    ensures MapStopReason(reason) == "length" <==> reason in {"max_tokens", "length"}
    ensures reason !in {"end_turn", "max_tokens"} ==> MapStopReason(reason) == reason
  {
  }
}
