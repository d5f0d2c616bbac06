/** Chat messages as the provider adapters see them, and the merging of
    consecutive same-role messages that the Anthropic, Gemini and Ollama
    adapters each perform before calling their SDK.

    Every adapter walks the history once, mapping each role to the
    provider's vocabulary and collecting the contents of a run of equal
    mapped roles; when the role changes (and once more at the end) the run
    becomes one message whose content is the line-feed join of the run's
    non-empty contents, and a run whose join is empty is dropped. */
module Messages {
  import opened Text

  /** A chat message `{"role": ..., "content": ...}`. */
  datatype Message = Message(role: string, content: string)

  /** What a client's `generate` returns: `{"role", "content", "finish_reason"}`. */
  datatype Reply = Reply(role: string, content: string, finishReason: string)

  /** The reply every adapter gives for a request it refuses before the call. */
  function ErrorReply(content: string): Reply {
    Reply("error", content, "error")
  }

  function Contents(msgs: seq<Message>): (r: seq<string>)
    ensures |r| == |msgs|
    ensures forall i | 0 <= i < |msgs| :: r[i] == msgs[i].content
  {
    seq(|msgs|, i requires 0 <= i < |msgs| => msgs[i].content)
  }

  /** Every message keeps its content and has its role rewritten by `roleOf`. */
  function MapRoles(msgs: seq<Message>, roleOf: string -> string): (r: seq<Message>)
    ensures |r| == |msgs|
    ensures forall i | 0 <= i < |msgs| :: r[i] == Message(roleOf(msgs[i].role), msgs[i].content)
  {
    seq(|msgs|, i requires 0 <= i < |msgs| => Message(roleOf(msgs[i].role), msgs[i].content))
  }

  predicate RolesIn(msgs: seq<Message>, roles: set<string>) {
    forall i | 0 <= i < |msgs| :: msgs[i].role in roles
  }

  predicate NoEmptyContent(msgs: seq<Message>) {
    forall i | 0 <= i < |msgs| :: msgs[i].content != []
  }

  /** A maximal run of consecutive messages with one role: the role and the
      contents, in order. */
  datatype Run = Run(role: string, parts: seq<string>)

  /** The runs after one more message: it joins the last run when it has
      the same role, else it opens a new one. */
  function Extend(runs: seq<Run>, m: Message): (r: seq<Run>)
  {
    if runs != [] && runs[|runs| - 1].role == m.role then
      runs[..|runs| - 1] + [Run(m.role, runs[|runs| - 1].parts + [m.content])]
    else
      runs + [Run(m.role, [m.content])]
  }

  /** The history cut into maximal same-role runs. */
  function Runs(msgs: seq<Message>): (r: seq<Run>)
    ensures |r| <= |msgs|
    ensures r == [] <==> msgs == []
  {
    if msgs == [] then [] else Extend(Runs(msgs[..|msgs| - 1]), msgs[|msgs| - 1])
  }

  /** The runs are maximal: none is empty, the last has the last message's
      role, and two neighbouring runs never share a role. */
  lemma {:induction false} RunsMaximal(msgs: seq<Message>)
    ensures msgs != [] ==> Runs(msgs)[|Runs(msgs)| - 1].role == msgs[|msgs| - 1].role
    ensures forall i | 0 <= i < |Runs(msgs)| :: Runs(msgs)[i].parts != []
    ensures forall i | 0 <= i < |Runs(msgs)| - 1 :: Runs(msgs)[i].role != Runs(msgs)[i + 1].role
  {
    if msgs != [] {
      RunsMaximal(msgs[..|msgs| - 1]);
    }
  }

  /** All the contents of the runs, in order. */
  function Flatten(runs: seq<Run>): seq<string> {
    if runs == [] then [] else Flatten(runs[..|runs| - 1]) + runs[|runs| - 1].parts
  }

  /** `"\n".join(filter(None, parts))` for one run. */
  function RunText(run: Run): string {
    Join("\n", NonEmpty(run.parts))
  }

  /** The message a finished run becomes: none when its text is empty. */
  function FlushRun(run: Run): (r: seq<Message>)
    ensures |r| <= 1
  {
    if RunText(run) == [] then [] else [Message(run.role, RunText(run))]
  }

  function Flush(runs: seq<Run>): (r: seq<Message>)
    ensures |r| <= |runs|
    ensures NoEmptyContent(r)
  {
    if runs == [] then [] else Flush(runs[..|runs| - 1]) + FlushRun(runs[|runs| - 1])
  }

  /** The merged history: one message per run with a non-empty text. */
  function Merged(msgs: seq<Message>): (r: seq<Message>)
    ensures |r| <= |msgs|
    ensures NoEmptyContent(r)
  {
    Flush(Runs(msgs))
  }

  /** The loop every adapter runs: `current_role` and `current_content_parts`
      collect a run and are flushed into the result when the mapped role
      changes and after the last message. The mapped roles of the three
      adapters are never empty, so the source's truthiness test on
      `current_role` reduces to "a run is open". */
  method MergeConsecutive(msgs: seq<Message>, roleOf: string -> string) returns (out: seq<Message>)
    ensures out == Merged(MapRoles(msgs, roleOf))
    ensures NoEmptyContent(out)
    ensures |out| <= |msgs|
  {
    ghost var mapped := MapRoles(msgs, roleOf);
    out := [];
    var current: Option<string> := None;
    var parts: seq<string> := [];
    ghost var done: seq<Run> := [];
    for i := 0 to |msgs|
      invariant Merging(mapped, i, out, current, parts, done)
    {
      out, current, parts, done := MergeMessage(mapped, i, out, current, parts, done, roleOf(msgs[i].role), msgs[i].content);
    }
    assert mapped[..|msgs|] == mapped;
    if current.Some? {
      out := FlushInto(out, current.value, parts);
      FlushSnoc(done, Run(current.value, parts));
      done := done + [Run(current.value, parts)];
    }
  }

  /** The loop state after `i` mapped messages: the flushed runs `done`
      have become `out`, and the open run, if any, is the last of the runs
      so far. */
  ghost predicate Merging(mapped: seq<Message>, i: nat, out: seq<Message>, current: Option<string>,
                          parts: seq<string>, done: seq<Run>) {
    && i <= |mapped|
    && out == Flush(done)
    && (current.None? <==> i == 0)
    && (current.None? ==> Runs(mapped[..i]) == [] && done == [])
    && (current.Some? ==> Runs(mapped[..i]) == done + [Run(current.value, parts)])
  }

  /** One turn of the loop: a message with the open run's role joins it,
      any other message flushes the open run and opens a new one. */
  method MergeMessage(ghost mapped: seq<Message>, ghost i: nat, out: seq<Message>, current: Option<string>,
                      parts: seq<string>, ghost done: seq<Run>, role: string, content: string)
    returns (out': seq<Message>, current': Option<string>, parts': seq<string>, ghost done': seq<Run>)
    requires i < |mapped| && mapped[i] == Message(role, content)
    requires Merging(mapped, i, out, current, parts, done)
    ensures Merging(mapped, i + 1, out', current', parts', done')
  {
    RunsStep(mapped, i);
    out', current', parts', done' := out, Some(role), [content], done;
    if current.Some? && role == current.value {
      ExtendSameRole(done, role, parts, content);
      parts' := parts + [content];
    } else if current.Some? {
      out' := FlushInto(out, current.value, parts);
      FlushSnoc(done, Run(current.value, parts));
      ExtendOtherRole(done + [Run(current.value, parts)], Message(role, content));
      done' := done + [Run(current.value, parts)];
    }
  }

  /** The flush of a run, as the adapters write it: the line-feed join of
      the run's non-empty contents becomes a message unless it is empty. */
  method FlushInto(out: seq<Message>, role: string, parts: seq<string>) returns (r: seq<Message>)
    ensures r == out + FlushRun(Run(role, parts))
  {
    var joined := Join("\n", NonEmpty(parts));
    r := out;
    if joined != [] {
      r := out + [Message(role, joined)];
    }
  }

  lemma RunsStep(mapped: seq<Message>, i: nat)
    requires i < |mapped|
    ensures Runs(mapped[..i + 1]) == Extend(Runs(mapped[..i]), mapped[i])
  {
    assert mapped[..i + 1][..i] == mapped[..i];
  }

  lemma ExtendSameRole(done: seq<Run>, role: string, parts: seq<string>, content: string)
    ensures Extend(done + [Run(role, parts)], Message(role, content)) == done + [Run(role, parts + [content])]
  {
    assert (done + [Run(role, parts)])[..|done|] == done;
  }

  lemma ExtendOtherRole(runs: seq<Run>, m: Message)
    requires runs != [] && runs[|runs| - 1].role != m.role
    ensures Extend(runs, m) == runs + [Run(m.role, [m.content])]
  {
  }

  lemma FlushSnoc(done: seq<Run>, run: Run)
    ensures Flush(done + [run]) == Flush(done) + FlushRun(run)
  {
    assert (done + [run])[..|done|] == done;
  }

  lemma {:induction false} FlattenExtend(runs: seq<Run>, m: Message)
    ensures Flatten(Extend(runs, m)) == Flatten(runs) + [m.content]
  {
    var r := Extend(runs, m);
    if runs != [] && runs[|runs| - 1].role == m.role {
      var init := runs[..|runs| - 1];
      assert r[..|r| - 1] == init;
      assert runs[..|runs| - 1] == init;
    } else {
      assert r[..|r| - 1] == runs;
    }
  }

  /** Cutting into runs loses and reorders nothing: the runs' contents,
      read in order, are the history's contents. */
  lemma {:induction false} FlattenRuns(msgs: seq<Message>)
    ensures Flatten(Runs(msgs)) == Contents(msgs)
  {
    if msgs != [] {
      var init := msgs[..|msgs| - 1];
      var m := msgs[|msgs| - 1];
      assert Flatten(Runs(msgs)) == Flatten(Runs(init)) + [m.content] by {
        FlattenExtend(Runs(init), m);
      }
      assert Flatten(Runs(init)) == Contents(init) by {
        FlattenRuns(init);
      }
      assert Contents(msgs) == Contents(init) + [m.content];
    }
  }

  lemma ContentsAppend(a: seq<Message>, b: seq<Message>)
    ensures Contents(a + b) == Contents(a) + Contents(b)
  {
  }

  /** Appending a message adds its content after a line feed to the joined text. */
  lemma AppendedText(msgs: seq<Message>, m: Message)
    requires msgs != []
    ensures Join("\n", Contents(msgs + [m])) == Join("\n", Contents(msgs)) + "\n" + m.content
  {
    assert Contents(msgs + [m]) == Contents(msgs) + [m.content];
    JoinAppend("\n", Contents(msgs), m.content);
  }

  lemma FlushRunText(run: Run)
    ensures forall i | 0 <= i < |FlushRun(run)| :: Contents(FlushRun(run))[i] != []
    ensures Join("\n", Contents(FlushRun(run))) == RunText(run)
  {
  }

  lemma {:induction false} FlushText(runs: seq<Run>)
    ensures Join("\n", Contents(Flush(runs))) == Join("\n", NonEmpty(Flatten(runs)))
  {
    if runs != [] {
      var init := runs[..|runs| - 1];
      var last := runs[|runs| - 1];
      var a := Contents(Flush(init));
      var b := Contents(FlushRun(last));
      assert Flush(runs) == Flush(init) + FlushRun(last);
      assert Flatten(runs) == Flatten(init) + last.parts;
      FlushText(init);
      ContentsAppend(Flush(init), FlushRun(last));
      FlushRunText(last);
      assert forall i | 0 <= i < |a| :: a[i] != [];
      JoinConcat("\n", a, b);
      NonEmptyAppend(Flatten(init), last.parts);
      JoinConcat("\n", NonEmpty(Flatten(init)), NonEmpty(last.parts));
    }
  }

  /** Merging keeps every non-empty content, in order: joining the merged
      contents with line feeds gives the line-feed join of the history's
      non-empty contents. */
  lemma MergedText(msgs: seq<Message>)
    ensures Join("\n", Contents(Merged(msgs))) == Join("\n", NonEmpty(Contents(msgs)))
  {
    FlushText(Runs(msgs));
    FlattenRuns(msgs);
  }

  /** The merged history is empty exactly when every content is empty. */
  lemma MergedEmptyIff(msgs: seq<Message>)
    ensures Merged(msgs) == [] <==> NonEmpty(Contents(msgs)) == []
  {
    MergedText(msgs);
    JoinEmptyIff("\n", Contents(Merged(msgs)));
    JoinEmptyIff("\n", NonEmpty(Contents(msgs)));
  }

  lemma {:induction false} RunsRoles(msgs: seq<Message>, roles: set<string>)
    requires RolesIn(msgs, roles)
    ensures forall i | 0 <= i < |Runs(msgs)| :: Runs(msgs)[i].role in roles
  {
    if msgs != [] {
      RunsRoles(msgs[..|msgs| - 1], roles);
    }
  }

  lemma {:induction false} FlushRoles(runs: seq<Run>, roles: set<string>)
    requires forall i | 0 <= i < |runs| :: runs[i].role in roles
    ensures RolesIn(Flush(runs), roles)
  {
    if runs != [] {
      FlushRoles(runs[..|runs| - 1], roles);
    }
  }

  /** Merging invents no role. */
  lemma MergedRoles(msgs: seq<Message>, roles: set<string>)
    requires RolesIn(msgs, roles)
    ensures RolesIn(Merged(msgs), roles)
  {
    RunsRoles(msgs, roles);
    FlushRoles(Runs(msgs), roles);
  }

  /** Every part of every run is non-empty. */
  predicate PartsFilled(runs: seq<Run>) {
    forall i, k | 0 <= i < |runs| && 0 <= k < |runs[i].parts| :: runs[i].parts[k] != []
  }

  lemma ExtendFilled(runs: seq<Run>, m: Message)
    requires PartsFilled(runs) && m.content != []
    ensures PartsFilled(Extend(runs, m))
  {
    var r := Extend(runs, m);
    if runs != [] && runs[|runs| - 1].role == m.role {
      var last := runs[|runs| - 1];
      assert r == runs[..|runs| - 1] + [Run(m.role, last.parts + [m.content])];
      assert forall i | 0 <= i < |r| - 1 :: r[i] == runs[i];
      assert forall k | 0 <= k < |last.parts| :: last.parts[k] != [];
    } else {
      assert forall i | 0 <= i < |r| - 1 :: r[i] == runs[i];
    }
  }

  /** Every run of a history without empty contents has only non-empty parts. */
  lemma {:induction false} RunsFilled(msgs: seq<Message>)
    requires NoEmptyContent(msgs)
    ensures PartsFilled(Runs(msgs))
  {
    if msgs != [] {
      var init := msgs[..|msgs| - 1];
      assert NoEmptyContent(init);
      RunsFilled(init);
      ExtendFilled(Runs(init), msgs[|msgs| - 1]);
    }
  }

  lemma {:induction false} FlushKeepsAll(runs: seq<Run>)
    requires PartsFilled(runs)
    requires forall i | 0 <= i < |runs| :: runs[i].parts != []
    ensures |Flush(runs)| == |runs|
    ensures forall i | 0 <= i < |runs| :: Flush(runs)[i].role == runs[i].role
  {
    if runs != [] {
      var init := runs[..|runs| - 1];
      var last := runs[|runs| - 1];
      assert |Flush(init)| == |init| && forall i | 0 <= i < |init| :: Flush(init)[i].role == init[i].role by {
        FlushKeepsAll(init);
      }
      assert FlushRun(last) == [Message(last.role, RunText(last))] by {
        NonEmptyKeepsAll(last.parts);
        JoinEmptyIff("\n", last.parts);
      }
      assert Flush(runs) == Flush(init) + [Message(last.role, RunText(last))];
    }
  }

  /** When no content is empty, no run is dropped, so neighbouring merged
      messages always differ in role. */
  lemma MergedAlternates(msgs: seq<Message>)
    requires NoEmptyContent(msgs)
    ensures |Merged(msgs)| == |Runs(msgs)|
    ensures forall i | 0 <= i < |Merged(msgs)| - 1 :: Merged(msgs)[i].role != Merged(msgs)[i + 1].role
  {
    RunsMaximal(msgs);
    RunsFilled(msgs);
    FlushKeepsAll(Runs(msgs));
  }

  /** A run whose contents are all empty is dropped, and its neighbours, which
      share a role, then end up side by side. */
  lemma DroppedRunJoinsNeighbours()
    ensures Merged([Message("user", "a"), Message("assistant", ""), Message("user", "b")])
         == [Message("user", "a"), Message("user", "b")]
  {
    var msgs := [Message("user", "a"), Message("assistant", ""), Message("user", "b")];
    assert msgs[..2][..1] == [msgs[0]];
    assert msgs[..2] == [msgs[0], msgs[1]];
    assert msgs[..|msgs| - 1] == msgs[..2];
    var r1 := Runs([msgs[0]]);
    assert r1 == [Run("user", ["a"])];
    var r2 := Runs(msgs[..2]);
    assert r2 == [Run("user", ["a"]), Run("assistant", [""])];
    var r3 := Runs(msgs);
    assert r3 == [Run("user", ["a"]), Run("assistant", [""]), Run("user", ["b"])];
    assert RunText(r3[1]) == "";
    assert RunText(r3[0]) == "a";
    assert RunText(r3[2]) == "b";
    assert r3[..2][..1] == [r3[0]];
    assert r3[..2] == [r3[0], r3[1]];
    assert Flush([r3[0]]) == [Message("user", "a")];
    assert Flush(r3[..2]) == [Message("user", "a")];
  }
}
