/** `process_request` of tulp/core.py: every stdin chunk is sent to the
    language model with its own prompt; while the reply looks unfinished and
    the continuation budget lasts, the model is asked to continue and the
    answers are glued together and parsed again; then the chunk's blocks are
    checked for errors and its stdout and stderr blocks collected. At the end
    the stdout blocks are concatenated, cleaned and printed or written to a
    file.

    The model client is an oracle from the message history to a reply or an
    exception; the prompt factory is a function from the request, the
    chunk and its position to the initial messages. Both are parameters. */
module Core {
  import opened Text
  import opened Messages
  import opened ResponseParser
  import opened Files
  import opened OutputHandler

  /** One call of `llm_client.generate`: a reply, or an exception. */
  datatype Outcome = Replied(reply: Reply) | Raised

  /** The model client, as a function of the history it is sent. */
  type Client = seq<Message> -> Outcome

  /** `prompt_factory.getMessages(user_instructions, stdin_chunk, num_chunks,
      current_chunk_num)`; no stdin is `None`. */
  type PromptFactory = (string, Option<string>, nat, nat) -> seq<Message>

  /** `f"{i + 1}/{len(stdin_chunks)}"` */
  function ChunkLabel(num: nat, total: nat): string {
    NatToString(num) + "/" + NatToString(total)
  }

  /** The user message asking the model to go on. */
  function ContinueRequest(display: string): string {
    ContinueHead + display + ContinueMiddle + ReplyStart + ContinueUsing + StartTag("...") + "/" + FileEnd
    + ContinueTail + ReplyEnd + ContinueLast
  }

  const ContinueHead := "Please continue generating the response exactly where you left off for chunk "
  const ContinueMiddle := ". Ensure you follow the required format (starting with "
  const ContinueUsing := ", using "
  const ContinueTail := " blocks) and end the entire reply with "
  const ContinueLast := " on a new line only when fully complete."

  /** The history entry for a previous reply. */
  function AsMessage(r: Reply): Message {
    Message(r.role, r.content)
  }

  /** The condition the loop re-evaluates after every reply. */
  predicate NeedsContinuation(budget: int, parsed: Blocks, finish: string) {
    && budget > 0
    && !HasReplyEnd(parsed)
    && !BlockExists(parsed, BlockError)
    && finish != "stop"
    && finish != "error"
  }

  /** How one chunk's conversation ended: an exception, or the glued reply
      text, the last finish reason, the number of continuation requests, the
      history as last sent, and whether an empty continuation cut it short. */
  datatype ChunkResult =
    | ChunkRaised
    | ChunkDone(text: string, finish: string, attempts: nat, history: seq<Message>, cutShort: bool)

  /** The continuation loop from the state after a reply `last` to
      `history`: ask again while needed, stop on an empty answer. */
  function Continue(llm: Client, followUp: string, history: seq<Message>, last: Reply,
                    text: string, finish: string, budget: int, attempt: nat): (r: ChunkResult)
    decreases if budget > 0 then budget else 0
  {
    if !NeedsContinuation(budget, Parsed(text), finish) then
      ChunkDone(text, finish, attempt, history, false)
    else
      var sent := Sent(history, last, followUp);
      match llm(sent)
      case Raised => ChunkRaised
      case Replied(reply) =>
        if reply.content == [] then ChunkDone(text, finish, attempt + 1, sent, true)
        else Continue(llm, followUp, sent, reply, text + "\n" + reply.content, reply.finishReason, budget - 1, attempt + 1)
  }

  /** One chunk: the initial request, then the continuation loop, which
      asks to go on with the text `followUp`. */
  function RunChunk(llm: Client, initial: seq<Message>, followUp: string, retries: int): ChunkResult {
    match llm(initial)
    case Raised => ChunkRaised
    case Replied(reply) => Continue(llm, followUp, initial, reply, reply.content, reply.finishReason, retries, 0)
  }

  /** The body of the `try` for one chunk, up to the end of the continuation
      loop. */
  method ProcessChunk(llm: Client, initial: seq<Message>, display: string, retries: int) returns (r: ChunkResult)
    ensures r == RunChunk(llm, initial, ContinueRequest(display), retries)
  {
    var outcome := llm(initial);
    if outcome.Raised? {
      return ChunkRaised;
    }
    var response := outcome.reply;
    var history := initial;
    var text := response.content;
    var finish := response.finishReason;
    var budget := retries;
    var attempt: nat := 0;
    var parsed := ParseResponse(text);
    var needs := NeedsContinuation(budget, parsed, finish);
    while needs
      invariant parsed == Parsed(text)
      invariant needs == NeedsContinuation(budget, parsed, finish)
      invariant Continue(llm, ContinueRequest(display), history, response, text, finish, budget, attempt) == RunChunk(llm, initial, ContinueRequest(display), retries)
      decreases if budget > 0 then budget else 0
    {
      ghost var before := (history, response, text, finish, budget, attempt);
      attempt := attempt + 1;
      budget := budget - 1;
      history := history + [AsMessage(response), Message("user", ContinueRequest(display))];
      outcome := llm(history);
      ContinueStep(llm, ContinueRequest(display), before.0, before.1, before.2, before.3, before.4, before.5);
      if outcome.Raised? {
        return ChunkRaised;
      }
      response := outcome.reply;
      if response.content == [] {
        return ChunkDone(text, finish, attempt, history, true);
      }
      text := text + "\n" + response.content;
      finish := response.finishReason;
      parsed := ParseResponse(text);
      needs := NeedsContinuation(budget, parsed, finish);
    }
    ContinueStop(llm, ContinueRequest(display), history, response, text, finish, budget, attempt);
    return ChunkDone(text, finish, attempt, history, false);
  }

  /** The request the loop sends after the reply `last` to `history`. */
  function Sent(history: seq<Message>, last: Reply, followUp: string): seq<Message> {
    history + [AsMessage(last), Message("user", followUp)]
  }

  lemma ContinueStop(llm: Client, followUp: string, history: seq<Message>, last: Reply,
                     text: string, finish: string, budget: int, attempt: nat)
    requires !NeedsContinuation(budget, Parsed(text), finish)
    ensures Continue(llm, followUp, history, last, text, finish, budget, attempt) == ChunkDone(text, finish, attempt, history, false)
  {
  }

  /** One round of the loop: what the continuation request leads to. */
  lemma ContinueStep(llm: Client, followUp: string, history: seq<Message>, last: Reply,
                     text: string, finish: string, budget: int, attempt: nat)
    requires NeedsContinuation(budget, Parsed(text), finish)
    ensures var sent := Sent(history, last, followUp);
      Continue(llm, followUp, history, last, text, finish, budget, attempt) ==
        match llm(sent)
        case Raised => ChunkRaised
        case Replied(reply) =>
          if reply.content == [] then ChunkDone(text, finish, attempt + 1, sent, true)
          else Continue(llm, followUp, sent, reply, text + "\n" + reply.content, reply.finishReason, budget - 1, attempt + 1)
  {
  }

  function Max0(n: int): nat {
    if n > 0 then n else 0
  }

  /** The history after `k` continuation rounds from `h`: `h` followed, per
      round, by the previous reply and the continuation request. */
  ghost predicate GrownBy(h: seq<Message>, r: seq<Message>, k: nat, followUp: string) {
    && |r| == |h| + 2 * k
    && r[..|h|] == h
    && forall j | 0 <= j < k :: r[|h| + 2 * j + 1] == Message("user", followUp)
  }

  lemma GrownByStep(h: seq<Message>, sent: seq<Message>, r: seq<Message>, k: nat, followUp: string, m: Message)
    requires sent == h + [m, Message("user", followUp)]
    requires GrownBy(sent, r, k, followUp)
    ensures GrownBy(h, r, k + 1, followUp)
  {
    assert r[..|h|] == sent[..|h|] == h;
    forall j | 0 <= j < k + 1
      ensures r[|h| + 2 * j + 1] == Message("user", followUp)
    {
      if j == 0 {
        assert r[|h| + 1] == sent[|h| + 1];
      } else {
        assert |h| + 2 * j + 1 == |sent| + 2 * (j - 1) + 1;
      }
    }
  }

  lemma GrownByZero(h: seq<Message>, followUp: string)
    ensures GrownBy(h, h, 0, followUp)
  {
  }

  /** The loop asks at most `budget` more times; it appends two messages per
      request, the second being the continuation request; and unless an empty
      answer cut it short, it stops only when no continuation is needed with
      what is left of the budget. */
  lemma {:induction false} ContinueBounds(llm: Client, followUp: string, history: seq<Message>, last: Reply,
                                          text: string, finish: string, budget: int, attempt: nat)
    ensures var r := Continue(llm, followUp, history, last, text, finish, budget, attempt);
      r.ChunkDone? ==>
        && attempt <= r.attempts <= attempt + Max0(budget)
        && GrownBy(history, r.history, r.attempts - attempt, followUp)
        && (!r.cutShort ==> !NeedsContinuation(budget - (r.attempts - attempt), Parsed(r.text), r.finish))
    decreases Max0(budget)
  {
    if NeedsContinuation(budget, Parsed(text), finish) {
      var sent := Sent(history, last, followUp);
      ContinueStep(llm, followUp, history, last, text, finish, budget, attempt);
      match llm(sent)
      case Raised =>
      case Replied(reply) =>
        if reply.content == [] {
          GrownByZero(sent, followUp);
          GrownByStep(history, sent, sent, 0, followUp, AsMessage(last));
        } else {
          var r := Continue(llm, followUp, sent, reply, text + "\n" + reply.content, reply.finishReason, budget - 1, attempt + 1);
          ContinueBounds(llm, followUp, sent, reply, text + "\n" + reply.content, reply.finishReason, budget - 1, attempt + 1);
          if r.ChunkDone? {
            GrownByStep(history, sent, r.history, r.attempts - attempt - 1, followUp, AsMessage(last));
            assert budget - 1 - (r.attempts - (attempt + 1)) == budget - (r.attempts - attempt);
          }
        }
    } else {
      ContinueStop(llm, followUp, history, last, text, finish, budget, attempt);
      GrownByZero(history, followUp);
    }
  }

  /** Per chunk, generate is called `1 + attempts` times, at most
      `1 + continuation_retries`; the initial messages are kept and each
      continuation adds the previous reply and one request; a loop that was
      not cut short ends only when no continuation is needed. */
  lemma ChunkBounds(llm: Client, initial: seq<Message>, followUp: string, retries: int)
    ensures var r := RunChunk(llm, initial, followUp, retries);
      r.ChunkDone? ==>
        && r.attempts <= Max0(retries)
        && GrownBy(initial, r.history, r.attempts, followUp)
        && (!r.cutShort ==> !NeedsContinuation(retries - r.attempts, Parsed(r.text), r.finish))
  {
    match llm(initial)
    case Raised =>
    case Replied(reply) =>
      ContinueBounds(llm, followUp, initial, reply, reply.content, reply.finishReason, retries, 0);
  }

  /** A reply that already carries the end tag, an error block, or a final
      finish reason is never continued. */
  lemma NoContinuationWhenFinished(llm: Client, initial: seq<Message>, followUp: string, retries: int, reply: Reply)
    requires llm(initial) == Replied(reply)
    requires var p := Parsed(reply.content);
      HasReplyEnd(p) || BlockExists(p, BlockError) || reply.finishReason in {"stop", "error"} || retries <= 0
    ensures RunChunk(llm, initial, followUp, retries) == ChunkDone(reply.content, reply.finishReason, 0, initial, false)
  {
  }

  /** What the rest of the chunk's processing decides: stop with exit status
      1 and the text printed on stderr, or go on with the chunk's stdout and
      stderr blocks. */
  datatype Verdict = Fail(err: string) | Pass(stdout: string, stderr: string)

  /** The checks after the continuation loop, in the source's order: an
      unfinished reply whose finish reason is "error" fails unless the whole
      budget was used; then a non-empty error block fails. */
  function ChunkVerdict(r: ChunkResult, retries: int): (v: Verdict)
    ensures r.ChunkRaised? ==> v == Fail("")
    ensures r.ChunkDone? && BlockIsNotEmpty(Parsed(r.text), BlockError) ==> v.Fail?
    ensures v.Pass? ==> v.stdout == BlockContent(Parsed(r.text), BlockStdout) && v.stderr == BlockContent(Parsed(r.text), BlockStderr)
  {
    match r
    case ChunkRaised => Fail("")
    case ChunkDone(text, finish, attempts, _, _) =>
      var parsed := Parsed(text);
      if !HasReplyEnd(parsed) && !(retries > 0 && attempts == retries) && finish != "length" && finish == "error" then
        Fail("")
      else if BlockIsNotEmpty(parsed, BlockError) then
        Fail("Tulp Error: " + BlockContent(parsed, BlockError) + "\n")
      else
        Pass(BlockContent(parsed, BlockStdout), BlockContent(parsed, BlockStderr))
  }

  /** A chunk passes exactly when it raised nothing, it has no non-empty
      error block, and it did not end unfinished with finish reason "error"
      before the budget was used up. */
  lemma ChunkVerdictPassIff(r: ChunkResult, retries: int)
    requires r.ChunkDone?
    ensures ChunkVerdict(r, retries).Pass? <==>
      && !BlockIsNotEmpty(Parsed(r.text), BlockError)
      && (HasReplyEnd(Parsed(r.text)) || r.finish != "error" || (retries > 0 && r.attempts == retries))
  {
  }

  /** The chunks the loop runs over: one `None` when there is no stdin. */
  function StdinChunks(chunks: seq<string>): (r: seq<Option<string>>)
    ensures |r| >= 1
    ensures chunks == [] ==> r == [None]
    ensures chunks != [] ==> |r| == |chunks| && forall k | 0 <= k < |chunks| :: r[k] == Some(chunks[k])
  {
    if chunks == [] then [None] else seq(|chunks|, k requires 0 <= k < |chunks| => Some(chunks[k]))
  }

  /** Chunk `k`'s verdict: each chunk's conversation starts afresh from its
      own prompt, so it depends on no other chunk. */
  function VerdictAt(llm: Client, prompt: PromptFactory, request: string, cs: seq<Option<string>>, retries: int, k: nat): Verdict
    requires k < |cs|
  {
    ChunkVerdict(RunChunk(llm, prompt(request, cs[k], |cs|, k + 1), ContinueRequest(ChunkLabel(k + 1, |cs|)), retries), retries)
  }

  function Verdicts(llm: Client, prompt: PromptFactory, request: string, cs: seq<Option<string>>, retries: int): (vs: seq<Verdict>)
    ensures |vs| == |cs|
    ensures forall k | 0 <= k < |cs| :: vs[k] == VerdictAt(llm, prompt, request, cs, retries, k)
  {
    seq(|cs|, k requires 0 <= k < |cs| => VerdictAt(llm, prompt, request, cs, retries, k))
  }

  /** The first failing verdict, if any. */
  function FirstFail(vs: seq<Verdict>): (r: Option<nat>)
    ensures r.Some? ==> r.value < |vs| && vs[r.value].Fail? && forall k | 0 <= k < r.value :: vs[k].Pass?
    ensures r.None? ==> forall k | 0 <= k < |vs| :: vs[k].Pass?
  {
    if vs == [] then None
    else if vs[0].Fail? then Some(0)
    else match FirstFail(vs[1..])
      case None => None
      case Some(k) => Some(k + 1)
  }

  function StdoutBlocks(vs: seq<Verdict>): (r: seq<string>)
    ensures |r| == |vs|
    ensures forall k | 0 <= k < |vs| :: r[k] == if vs[k].Pass? then vs[k].stdout else ""
  {
    seq(|vs|, k requires 0 <= k < |vs| => if vs[k].Pass? then vs[k].stdout else "")
  }

  /** What the chunk loop hands to the final stage: exit status 1 with the
      stderr text of the first failing chunk, or the non-empty stdout blocks
      in chunk order with the last chunk's stderr block. */
  datatype Collected = Failed(err: string) | Gathered(stdoutParts: seq<string>, finalStderr: string)

  function Collect(vs: seq<Verdict>): Collected
    requires vs != []
  {
    match FirstFail(vs)
    case Some(k) => Failed(vs[k].err)
    case None => Gathered(NonEmpty(StdoutBlocks(vs)), vs[|vs| - 1].stderr)
  }

  /** The chunk loop of `process_request`: stop at the first failure, else
      collect each chunk's non-empty stdout block and keep the stderr block
      of the last chunk only. */
  method CollectChunks(llm: Client, prompt: PromptFactory, request: string, stdinChunks: seq<string>, retries: int)
    returns (c: Collected)
    ensures c == Collect(Verdicts(llm, prompt, request, StdinChunks(stdinChunks), retries))
  {
    var cs := StdinChunks(stdinChunks);
    ghost var vs := Verdicts(llm, prompt, request, cs, retries);
    var parts: seq<string> := [];
    var finalStderr := "";
    for i := 0 to |cs|
      invariant forall k | 0 <= k < i :: vs[k].Pass?
      invariant parts == NonEmpty(StdoutBlocks(vs[..i]))
      invariant finalStderr == if i == |cs| then vs[i - 1].stderr else ""
    {
      var isLast := i == |cs| - 1;
      var display := ChunkLabel(i + 1, |cs|);
      var messages := prompt(request, cs[i], |cs|, i + 1);
      var chunk := ProcessChunk(llm, messages, display, retries);
      var verdict := ChunkVerdict(chunk, retries);
      assert verdict == vs[i];
      if verdict.Fail? {
        FirstFailAt(vs, i);
        c := Failed(verdict.err);
        assert c == Collect(vs);
        return;
      }
      GatherStep(vs, i);
      if verdict.stdout != [] {
        parts := parts + [verdict.stdout];
      }
      if verdict.stderr != [] && isLast {
        finalStderr := verdict.stderr;
      }
    }
    AllGathered(vs, parts, finalStderr);
    c := Gathered(parts, finalStderr);
    assert c == Collect(vs);
  }

  lemma FirstFailAt(vs: seq<Verdict>, i: nat)
    requires i < |vs| && vs[i].Fail?
    requires forall k | 0 <= k < i :: vs[k].Pass?
    ensures FirstFail(vs) == Some(i)
    ensures Collect(vs) == Failed(vs[i].err)
  {
    var r := FirstFail(vs);
    assert r.Some? ==> r.value <= i;
    assert r.Some? ==> r.value >= i;
  }

  /** Every chunk passed: the collected parts and stderr are the gathered
      outcome. */
  lemma AllGathered(vs: seq<Verdict>, parts: seq<string>, finalStderr: string)
    requires vs != []
    requires forall k | 0 <= k < |vs| :: vs[k].Pass?
    requires parts == NonEmpty(StdoutBlocks(vs[..|vs|]))
    requires finalStderr == vs[|vs| - 1].stderr
    ensures Collect(vs) == Gathered(parts, finalStderr)
  {
    assert vs[..|vs|] == vs;
  }

  /** One passing chunk more: its stdout block, when non-empty, is appended. */
  lemma GatherStep(vs: seq<Verdict>, i: nat)
    requires i < |vs| && vs[i].Pass?
    requires forall k | 0 <= k < i :: vs[k].Pass?
    ensures forall k | 0 <= k < i + 1 :: vs[k].Pass?
    ensures NonEmpty(StdoutBlocks(vs[..i + 1])) ==
      NonEmpty(StdoutBlocks(vs[..i])) + (if vs[i].stdout == [] then [] else [vs[i].stdout])
  {
    StdoutBlocksSnoc(vs, i);
    NonEmptyAppend(StdoutBlocks(vs[..i]), [vs[i].stdout]);
  }

  lemma StdoutBlocksSnoc(vs: seq<Verdict>, i: nat)
    requires i < |vs|
    ensures StdoutBlocks(vs[..i + 1]) == StdoutBlocks(vs[..i]) + [StdoutBlocks(vs)[i]]
  {
  }

  /** The final stage of `process_request`, given what the chunk loop
      collected: the exit status, what is printed on stdout and on stderr,
      the stderr block that `print_stderr` surfaces (stripped), and the
      filesystem before and after, written to when `write_file` is set (""
      meaning unset). */
  ghost predicate Delivered(c: Collected, writeFile: string, cwd: string, before: map<string, Entry>, after: map<string, Entry>,
                            exitCode: int, stdout: string, stderr: string, surfaced: string)
  {
    if c.Failed? then
      exitCode == 1 && stdout == [] && stderr == c.err && surfaced == [] && after == before
    else
      var cleaned := CleanupOutput(Concat(c.stdoutParts));
      && stderr == []
      && surfaced == Strip(c.finalStderr)
      && (writeFile == [] ==> exitCode == 0 && stdout == EmittedStdout(cleaned) && after == before)
      && (writeFile != [] ==>
            exists ok: bool, msg: string ::
              && WriteEffect(before, AbsPath(cwd, writeFile), cleaned, ok, msg, after)
              && exitCode == (if ok then 0 else 1)
              && stdout == (if ok then [] else EmittedStdout(cleaned)))
  }

  /** The end of `process_request`: fail with the collected error, or clean
      the joined stdout blocks, surface the last stderr block, and print the
      result or write it to the requested file. */
  method Deliver(c: Collected, writeFile: string, fs: FileSystem)
    returns (exitCode: int, stdout: string, stderr: string, surfaced: string)
    modifies fs
    ensures Delivered(c, writeFile, fs.cwd, old(fs.entries), fs.entries, exitCode, stdout, stderr, surfaced)
  {
    if c.Failed? {
      return 1, [], c.err, [];
    }
    var raw := Concat(c.stdoutParts);
    var cleaned := CleanupOutput(raw);
    stderr := [];
    surfaced := Strip(c.finalStderr);
    exitCode := 0;
    if writeFile != [] {
      var ok, msg := WriteToFile(fs, writeFile, cleaned);
      if !ok {
        stdout := EmittedStdout(cleaned);
        exitCode := 1;
      } else {
        stdout := [];
      }
    } else {
      stdout := EmittedStdout(cleaned);
    }
  }

  /** `process_request` after the client and the prompt factory: the chunk
      loop, then the final stage on what it collected. */
  method ProcessRequest(llm: Client, prompt: PromptFactory, request: string, stdinChunks: seq<string>,
                        retries: int, writeFile: string, fs: FileSystem)
    returns (exitCode: int, stdout: string, stderr: string, surfaced: string)
    modifies fs
    ensures Delivered(Collect(Verdicts(llm, prompt, request, StdinChunks(stdinChunks), retries)),
                      writeFile, fs.cwd, old(fs.entries), fs.entries, exitCode, stdout, stderr, surfaced)
  {
    var c := CollectChunks(llm, prompt, request, stdinChunks, retries);
    exitCode, stdout, stderr, surfaced := Deliver(c, writeFile, fs);
  }

  /** The aggregated stdout is the separator-free concatenation of every
      chunk's stdout block in order, empty blocks contributing nothing. */
  lemma GatheredStdout(vs: seq<Verdict>)
    requires vs != [] && Collect(vs).Gathered?
    ensures Concat(Collect(vs).stdoutParts) == Concat(StdoutBlocks(vs))
    ensures forall k | 0 <= k < |vs| :: vs[k].Pass?
  {
    ConcatNonEmpty(StdoutBlocks(vs));
  }

  /** The run fails exactly when some chunk fails, and then with the stderr
      text of the first one. */
  lemma CollectFailsIff(vs: seq<Verdict>)
    requires vs != []
    ensures Collect(vs).Failed? <==> exists k | 0 <= k < |vs| :: vs[k].Fail?
    ensures Collect(vs).Failed? ==> exists k | 0 <= k < |vs| :: vs[k].Fail? && Collect(vs).err == vs[k].err && forall j | 0 <= j < k :: vs[j].Pass?
  {
  }

  /** Only the last chunk's stderr block is surfaced: the stderr blocks of
      the other chunks do not affect the outcome. */
  lemma OnlyLastStderr(vs: seq<Verdict>, ws: seq<Verdict>)
    requires vs != [] && |ws| == |vs|
    requires forall k | 0 <= k < |vs| :: vs[k].Pass? && ws[k].Pass? && vs[k].stdout == ws[k].stdout
    requires vs[|vs| - 1].stderr == ws[|ws| - 1].stderr
    ensures Collect(vs) == Collect(ws)
  {
    assert StdoutBlocks(vs) == StdoutBlocks(ws);
  }
}
