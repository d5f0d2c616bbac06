/** `handle_execution_request` of tulp/executor.py: ask the model for a
    Python program, run it on the whole of stdin, and on an empty reply, a
    missing program or a failed run ask again with a corrective message, at
    most `MAX_EXECUTION_RETRIES` times.

    `execute_python_code` is an oracle from the program and its stdin to
    the captured stdout, stderr and exit status; the model client is the
    oracle of the continuation controller; the prompt factory is a function
    of the request and the first stdin chunk. */
module Executor {
  import opened Text
  import opened Messages
  import opened ResponseParser
  import opened Files
  import opened OutputHandler
  import opened Core

  const MaxExecutionRetries := 5

  /** What `execute_python_code(code, input_data)` returns. */
  datatype Execution = Execution(stdout: string, stderr: string, exitCode: int)

  type Runner = (string, string) -> Execution

  /** `prompt_factory.getMessages(user_request, stdin_context_chunk)` */
  type ExecPromptFactory = (string, string) -> seq<Message>

  /** Which corrective request follows a reply that is retried: the reply
      was empty, it held no program, or its program failed with
      `errorOutput`. */
  datatype Corrective = EmptyReply | MissingCode | FixCode(errorOutput: string)

  /** The user message of each corrective request. */
  function RequestText(c: Corrective): string {
    match c
    case EmptyReply =>
      "You returned an empty response. Please provide the Python code in the "
      + StartTag(BlockStdout) + "/" + FileEnd + " block as requested."
    case MissingCode =>
      "The previous response did not contain Python code in the required "
      + StartTag(BlockStdout) + "/" + FileEnd
      + " block. Please generate the Python code as requested and place it *only* inside the '"
      + BlockStdout + "' block, ensuring it is not empty."
    case FixCode(errorOutput) =>
      "The Python code you provided in the '" + BlockStdout + "' block failed during execution. "
      + "Error output:\n```\n" + errorOutput + "\n```\n"
      + "Please analyze the original request, the generated code, and the error. Provide a corrected version of the Python program in the "
      + StartTag(BlockStdout) + "/" + FileEnd + " block. "
      + "Ensure all necessary imports are included and the logic correctly addresses the initial request, fixing the identified error."
  }

  /** The error text shown to the model: stripped stderr, or stripped
      stdout when stderr is blank. */
  function ErrorOutput(ex: Execution): (r: string)
    ensures Stripped(r)
    ensures Strip(ex.stderr) != [] ==> r == Strip(ex.stderr)
    ensures Strip(ex.stderr) == [] ==> r == Strip(ex.stdout)
  {
    if Strip(ex.stderr) != [] then Strip(ex.stderr) else Strip(ex.stdout)
  }

  /** What a successful run prints: the captured stdout, ended by a line
      feed when it lacks one; nothing for no output. */
  function SuccessOutput(out: string): (r: string)
    ensures out == [] <==> r == []
    ensures r != [] ==> EndsWith(r, "\n")
    ensures r == out || r == out + "\n"
  {
    if out == [] then [] else if EndsWith(out, "\n") then out else out + "\n"
  }

  /** What `print(code_stdout)` writes after the last failed run: the
      captured stdout and a line feed, always added; nothing for no output. */
  function FailureOutput(out: string): (r: string)
    ensures out == [] ==> r == []
    ensures out != [] ==> r == out + "\n"
  {
    if out == [] then [] else out + "\n"
  }

  /** How one attempt ends: the loop returns with an exit status and the
      text printed on stdout, or it goes on with two more messages in the
      history (the reply and the corrective request `request`); `program`
      is the program run in this attempt, if any. */
  datatype Step =
    | Finish(exitCode: int, printed: string, program: Option<string>)
    | Retry(reply: Reply, request: string, program: Option<string>)

  /** The two messages a retry appends to the history. */
  function Appended(s: Step): seq<Message>
    requires s.Retry?
  {
    [AsMessage(s.reply), Message("user", s.request)]
  }

  function Ran(program: Option<string>): seq<string> {
    if program.Some? then [program.value] else []
  }

  /** The program in a parsed reply: its stdout block, cleaned of a code
      fence. */
  function ProgramIn(blocks: Blocks): (r: string)
    ensures Stripped(r)
  {
    CleanupOutput(BlockContent(blocks, BlockStdout))
  }

  /** One attempt on the model's `outcome`; `lastAttempt` when no retry is
      left. An exception, and on the last attempt an empty reply, end with
      status 1 and nothing printed. */
  function AttemptStep(outcome: Outcome, run: Runner, stdin: string, lastAttempt: bool): Step
  {
    match outcome
    case Raised => Finish(1, [], None)
    case Replied(reply) =>
      if reply.content == [] then
        if lastAttempt then Finish(1, [], None)
        else Retry(reply, RequestText(EmptyReply), None)
      else ReplyStep(reply, Parsed(reply.content), run, stdin, lastAttempt)
  }

  /** The rest of an attempt once the non-empty `reply` parsed into
      `blocks`: a non-empty error block, and on the last attempt a missing
      program, end with status 1 and nothing printed; otherwise the program
      runs. */
  function ReplyStep(reply: Reply, blocks: Blocks, run: Runner, stdin: string, lastAttempt: bool): Step
  {
    if BlockIsNotEmpty(blocks, BlockError) then Finish(1, [], None)
    else if !BlockIsNotEmpty(blocks, BlockStdout) then
      if lastAttempt then Finish(1, [], None)
      else Retry(reply, RequestText(MissingCode), None)
    else
      var code := ProgramIn(blocks);
      var ex := run(code, stdin);
      if ex.exitCode == 0 then Finish(0, SuccessOutput(ex.stdout), Some(code))
      else if lastAttempt then Finish(ex.exitCode, FailureOutput(ex.stdout), Some(code))
      else Retry(reply, RequestText(FixCode(ErrorOutput(ex))), Some(code))
  }

  /** What every attempt guarantees, whatever the reply: the last attempt
      returns; the program run is stripped; status 0 exactly when a program
      ran and exited with 0, and then its output is printed; a failed
      program on the last attempt passes on its status and its output;
      without a program, status 1 and nothing printed; a retry after a run
      means the run failed. */
  predicate StepKeeps(s: Step, run: Runner, stdin: string, lastAttempt: bool) {
    && (lastAttempt ==> s.Finish?)
    && (s.program.Some? ==> Stripped(s.program.value))
    && (s.Finish? ==> (s.exitCode == 0 <==> s.program.Some? && run(s.program.value, stdin).exitCode == 0))
    && (s.Finish? && s.program.Some? ==>
          var ex := run(s.program.value, stdin);
          s.exitCode == ex.exitCode
          && s.printed == (if ex.exitCode == 0 then SuccessOutput(ex.stdout) else FailureOutput(ex.stdout)))
    && (s.Finish? && s.program.None? ==> s.exitCode == 1 && s.printed == [])
    && (s.Retry? && s.program.Some? ==> run(s.program.value, stdin).exitCode != 0)
  }

  /** Every step after a parsed reply keeps the guarantees; it runs the
      reply's program exactly when there is no error block and the stdout
      block is not empty; every retry answers this reply. */
  lemma ReplyStepKeeps(reply: Reply, blocks: Blocks, run: Runner, stdin: string, lastAttempt: bool)
    ensures var s := ReplyStep(reply, blocks, run, stdin, lastAttempt);
      && StepKeeps(s, run, stdin, lastAttempt)
      && (s.program.Some? <==> !BlockIsNotEmpty(blocks, BlockError) && BlockIsNotEmpty(blocks, BlockStdout))
      && (s.program.Some? ==> s.program.value == ProgramIn(blocks))
      && (BlockIsNotEmpty(blocks, BlockError) ==> s == Finish(1, [], None))
      && (s.Retry? ==> s.reply == reply)
  {
  }

  /** The corrective request of a retry: the error output of the failed
      program, or a request for the missing program. */
  lemma ReplyStepRequest(reply: Reply, blocks: Blocks, run: Runner, stdin: string, lastAttempt: bool)
    ensures var s := ReplyStep(reply, blocks, run, stdin, lastAttempt);
      s.Retry? && s.program.Some? ==> s.request == RequestText(FixCode(ErrorOutput(run(s.program.value, stdin))))
    ensures var s := ReplyStep(reply, blocks, run, stdin, lastAttempt);
      s.Retry? && s.program.None? ==> s.request == RequestText(MissingCode)
  {
    if !BlockIsNotEmpty(blocks, BlockError) && BlockIsNotEmpty(blocks, BlockStdout) {
      var ex := run(ProgramIn(blocks), stdin);
      assert ReplyStep(reply, blocks, run, stdin, lastAttempt).program == Some(ProgramIn(blocks));
    }
  }

  /** Every attempt keeps the guarantees; an exception ends the loop; a
      program runs only out of a non-empty reply; a retry answers the
      model's own reply. */
  lemma AttemptStepKeeps(outcome: Outcome, run: Runner, stdin: string, lastAttempt: bool)
    ensures var s := AttemptStep(outcome, run, stdin, lastAttempt);
      && StepKeeps(s, run, stdin, lastAttempt)
      && (outcome.Raised? ==> s == Finish(1, [], None))
      && (s.program.Some? ==>
            outcome.Replied? && outcome.reply.content != [] && s.program.value == ProgramIn(Parsed(outcome.reply.content)))
      && (s.Retry? ==> outcome.Replied? && s.reply == outcome.reply)
  {
    if outcome.Replied? && outcome.reply.content != [] {
      ReplyStepKeeps(outcome.reply, Parsed(outcome.reply.content), run, stdin, lastAttempt);
    }
  }

  /** The corrective request of a retry: the error output of the failed
      program, or a request for the program after an empty reply or a reply
      without one. */
  lemma AttemptStepRequest(outcome: Outcome, run: Runner, stdin: string, lastAttempt: bool)
    ensures var s := AttemptStep(outcome, run, stdin, lastAttempt);
      s.Retry? ==>
        s.request == RequestText(
          if s.program.Some? then FixCode(ErrorOutput(run(s.program.value, stdin)))
          else if outcome.reply.content == [] then EmptyReply
          else MissingCode)
  {
    if outcome.Replied? && outcome.reply.content != [] {
      ReplyStepRequest(outcome.reply, Parsed(outcome.reply.content), run, stdin, lastAttempt);
    }
  }

  /** How a run of the repair loop ends: the exit status, what is printed
      on stdout, how many times the model was called, the programs run (in
      order; each is also written to the output file when one is set), and
      whether the loop ran out of attempts without returning. */
  datatype ExecRun = ExecRun(exitCode: int, printed: string, calls: nat, programs: seq<string>, exhausted: bool)

  /** A run that continues as `r` after one more call that ran `program`. */
  function Later(program: Option<string>, r: ExecRun): ExecRun {
    r.(calls := r.calls + 1, programs := Ran(program) + r.programs)
  }

  /* ExecFrom, AttemptFrom, AfterReply and AfterStep are the loop test and
     the loop body cut into four, so that a proof about the loop unfolds one
     piece at a time; `history` is part of their measure only so that a
     constant attempt number does not unroll the whole loop in a proof. */

  /** The loop from attempt `retries` with `history` as the request: the
      loop test. */
  function ExecFrom(llm: Client, run: Runner, stdin: string, history: seq<Message>, retries: nat): ExecRun
    decreases Max0(MaxExecutionRetries - retries), 3, history
  {
    if retries >= MaxExecutionRetries then ExecRun(1, [], 0, [], true)
    else AttemptFrom(llm, run, stdin, history, retries)
  }

  /** The loop body at attempt `retries`: ask the model with `history`. */
  function AttemptFrom(llm: Client, run: Runner, stdin: string, history: seq<Message>, retries: nat): ExecRun
    requires retries < MaxExecutionRetries
    decreases Max0(MaxExecutionRetries - retries), 2, history
  {
    AfterReply(llm, run, stdin, history, retries, llm(history))
  }

  /** The loop body once the model answered `outcome`. */
  function AfterReply(llm: Client, run: Runner, stdin: string, history: seq<Message>, retries: nat, outcome: Outcome): ExecRun
    requires retries < MaxExecutionRetries
    decreases Max0(MaxExecutionRetries - retries), 1, history
  {
    AfterStep(llm, run, stdin, history, retries, AttemptStep(outcome, run, stdin, retries >= MaxExecutionRetries - 1))
  }

  /** The end of the loop body: return, or loop again with the history
      grown by the reply and the corrective request. */
  function AfterStep(llm: Client, run: Runner, stdin: string, history: seq<Message>, retries: nat, s: Step): ExecRun
    requires retries < MaxExecutionRetries
    decreases Max0(MaxExecutionRetries - retries), 0, history
  {
    match s
    case Finish(exitCode, printed, program) => ExecRun(exitCode, printed, 1, Ran(program), false)
    case Retry(_, _, program) => Later(program, ExecFrom(llm, run, stdin, history + Appended(s), retries + 1))
  }

  /** The whole request: the program reads every chunk, the prompt sees only
      the first one. */
  function Execute(llm: Client, prompt: ExecPromptFactory, run: Runner, request: string, stdinChunks: seq<string>): ExecRun {
    var context := if stdinChunks == [] then "" else stdinChunks[0];
    ExecFrom(llm, run, Concat(stdinChunks), prompt(request, context), 0)
  }

  /** The result of the loop seen from its start, given the calls made and
      the programs run before the current attempt. */
  function SoFar(calls: nat, programs: seq<string>, r: ExecRun): ExecRun {
    r.(calls := calls + r.calls, programs := programs + r.programs)
  }

  lemma SoFarLater(calls: nat, programs: seq<string>, program: Option<string>, r: ExecRun)
    ensures SoFar(calls, programs, Later(program, r)) == SoFar(calls + 1, programs + Ran(program), r)
  {
    assert programs + (Ran(program) + r.programs) == (programs + Ran(program)) + r.programs;
  }

  /** The loop unfolded by one attempt. */
  lemma ExecFromStep(llm: Client, run: Runner, stdin: string, history: seq<Message>, retries: nat)
    requires retries < MaxExecutionRetries
    ensures ExecFrom(llm, run, stdin, history, retries)
         == AfterStep(llm, run, stdin, history, retries,
                      AttemptStep(llm(history), run, stdin, retries >= MaxExecutionRetries - 1))
  {
    assert ExecFrom(llm, run, stdin, history, retries) == AttemptFrom(llm, run, stdin, history, retries);
    assert AttemptFrom(llm, run, stdin, history, retries) == AfterReply(llm, run, stdin, history, retries, llm(history));
  }

  /** The step the loop takes at attempt `retries`, with what it
      guarantees. */
  lemma NextStep(llm: Client, run: Runner, stdin: string, history: seq<Message>, retries: nat) returns (s: Step)
    requires retries < MaxExecutionRetries
    ensures StepKeeps(s, run, stdin, retries >= MaxExecutionRetries - 1)
    ensures ExecFrom(llm, run, stdin, history, retries) == AfterStep(llm, run, stdin, history, retries, s)
  {
    s := AttemptStep(llm(history), run, stdin, retries >= MaxExecutionRetries - 1);
    ExecFromStep(llm, run, stdin, history, retries);
    AttemptStepKeeps(llm(history), run, stdin, retries >= MaxExecutionRetries - 1);
  }

  /** What a whole run of the loop guarantees: no more programs than
      calls; the programs keep `ProgramsKeep` and the end `EndKeeps`. */
  predicate RunKeeps(r: ExecRun, run: Runner, stdin: string) {
    && |r.programs| <= r.calls
    && ProgramsKeep(r.programs, run, stdin)
    && EndKeeps(r.exitCode, r.printed, r.programs, run, stdin)
  }

  /** Every program is stripped, and every program but the last one
      failed. */
  predicate ProgramsKeep(programs: seq<string>, run: Runner, stdin: string) {
    && (forall i | 0 <= i < |programs| :: Stripped(programs[i]))
    && (forall i | 0 <= i < |programs| - 1 :: run(programs[i], stdin).exitCode != 0)
  }

  /** Status 0 exactly when the last program ran and exited with 0, and
      then its output is printed; any other status is 1 with nothing
      printed, or the last program's own status with its output. */
  predicate EndKeeps(exitCode: int, printed: string, programs: seq<string>, run: Runner, stdin: string) {
    && (exitCode == 0 <==> programs != [] && run(programs[|programs| - 1], stdin).exitCode == 0)
    && (exitCode == 0 ==> printed == SuccessOutput(run(programs[|programs| - 1], stdin).stdout))
    && (exitCode != 0 ==>
          || (exitCode == 1 && printed == [])
          || (&& programs != []
              && exitCode == run(programs[|programs| - 1], stdin).exitCode
              && printed == FailureOutput(run(programs[|programs| - 1], stdin).stdout)))
  }

  /** A failed program in front keeps the programs' guarantees. */
  lemma ProgramsKeepCons(program: string, programs: seq<string>, run: Runner, stdin: string)
    requires Stripped(program) && run(program, stdin).exitCode != 0
    requires ProgramsKeep(programs, run, stdin)
    ensures ProgramsKeep([program] + programs, run, stdin)
  {
    var all := [program] + programs;
    assert forall i | 1 <= i < |all| :: all[i] == programs[i - 1];
  }

  /** A failed program in front does not change how the run ends. */
  lemma EndKeepsCons(program: string, exitCode: int, printed: string, programs: seq<string>, run: Runner, stdin: string)
    requires run(program, stdin).exitCode != 0
    requires EndKeeps(exitCode, printed, programs, run, stdin)
    ensures EndKeeps(exitCode, printed, [program] + programs, run, stdin)
  {
    var all := [program] + programs;
    if programs != [] {
      assert all[|all| - 1] == programs[|programs| - 1];
    }
  }

  /** Started with attempts left, the loop always returns from inside its
      body (the last attempt cannot retry), after between one call and one
      call per attempt left. */
  lemma {:induction false} ExecFromKeeps(llm: Client, run: Runner, stdin: string, history: seq<Message>, retries: nat)
    ensures var r := ExecFrom(llm, run, stdin, history, retries);
      && (retries >= MaxExecutionRetries ==> r == ExecRun(1, [], 0, [], true))
      && (retries < MaxExecutionRetries ==> !r.exhausted && 1 <= r.calls <= MaxExecutionRetries - retries)
      && RunKeeps(r, run, stdin)
    decreases MaxExecutionRetries - retries
  {
    if retries < MaxExecutionRetries {
      var s := NextStep(llm, run, stdin, history, retries);
      if s.Finish? {
        FinishKeeps(s, run, stdin);
        assert ExecFrom(llm, run, stdin, history, retries) == ExecRun(s.exitCode, s.printed, 1, Ran(s.program), false);
      } else {
        var rest := ExecFrom(llm, run, stdin, history + Appended(s), retries + 1);
        ExecFromKeeps(llm, run, stdin, history + Appended(s), retries + 1);
        RetryKeeps(s, rest, run, stdin);
        assert ExecFrom(llm, run, stdin, history, retries) == Later(s.program, rest);
      }
    }
  }

  /** An attempt that returns ends a run that keeps the guarantees. */
  lemma FinishKeeps(s: Step, run: Runner, stdin: string)
    requires s.Finish? && StepKeeps(s, run, stdin, true)
    ensures RunKeeps(ExecRun(s.exitCode, s.printed, 1, Ran(s.program), false), run, stdin)
  {
  }

  /** A failed attempt followed by a run that keeps the guarantees keeps
      them. */
  lemma RetryKeeps(s: Step, rest: ExecRun, run: Runner, stdin: string)
    requires s.Retry? && StepKeeps(s, run, stdin, false)
    requires RunKeeps(rest, run, stdin) && !rest.exhausted && rest.calls >= 1
    ensures RunKeeps(Later(s.program, rest), run, stdin)
  {
    var r := Later(s.program, rest);
    if s.program.Some? {
      assert r.programs == [s.program.value] + rest.programs;
      ProgramsKeepCons(s.program.value, rest.programs, run, stdin);
      EndKeepsCons(s.program.value, rest.exitCode, rest.printed, rest.programs, run, stdin);
    } else {
      assert r.programs == rest.programs;
    }
  }

  /** The whole request keeps the guarantees, with at most
      `MAX_EXECUTION_RETRIES` calls to the model. */
  lemma ExecuteKeeps(llm: Client, prompt: ExecPromptFactory, run: Runner, request: string, stdinChunks: seq<string>)
    ensures var r := Execute(llm, prompt, run, request, stdinChunks);
      && !r.exhausted && 1 <= r.calls <= MaxExecutionRetries
      && RunKeeps(r, run, Concat(stdinChunks))
  {
    var context := if stdinChunks == [] then "" else stdinChunks[0];
    ExecFromKeeps(llm, run, Concat(stdinChunks), prompt(request, context), 0);
  }

  /** A reply with a non-empty error block ends the loop at once: status 1,
      nothing printed, nothing run. */
  lemma ErrorBlockStops(llm: Client, run: Runner, stdin: string, history: seq<Message>, retries: nat)
    requires retries < MaxExecutionRetries
    requires llm(history).Replied? && llm(history).reply.content != []
    requires BlockIsNotEmpty(Parsed(llm(history).reply.content), BlockError)
    ensures ExecFrom(llm, run, stdin, history, retries) == ExecRun(1, [], 1, [], false)
  {
    ExecFromStep(llm, run, stdin, history, retries);
    ReplyStepKeeps(llm(history).reply, Parsed(llm(history).reply.content), run, stdin, retries >= MaxExecutionRetries - 1);
  }

  /** A failed program with attempts left is answered with the reply and its
      error output, and the loop goes on from the grown history. */
  lemma FailedRunRetries(llm: Client, run: Runner, stdin: string, history: seq<Message>, retries: nat)
    requires retries < MaxExecutionRetries - 1
    requires llm(history).Replied? && llm(history).reply.content != []
    requires var blocks := Parsed(llm(history).reply.content);
      !BlockIsNotEmpty(blocks, BlockError) && BlockIsNotEmpty(blocks, BlockStdout)
    requires run(ProgramIn(Parsed(llm(history).reply.content)), stdin).exitCode != 0
    ensures var reply := llm(history).reply;
      var code := ProgramIn(Parsed(reply.content));
      var request := RequestText(FixCode(ErrorOutput(run(code, stdin))));
      ExecFrom(llm, run, stdin, history, retries)
        == Later(Some(code), ExecFrom(llm, run, stdin, history + [AsMessage(reply), Message("user", request)], retries + 1))
  {
    ExecFromStep(llm, run, stdin, history, retries);
  }

  /** A reply without a program, with attempts left, is answered with the
      reply and a request for the program, and the loop goes on. */
  lemma MissingProgramRetries(llm: Client, run: Runner, stdin: string, history: seq<Message>, retries: nat)
    requires retries < MaxExecutionRetries - 1
    requires llm(history).Replied?
    requires var content := llm(history).reply.content;
      content == [] || (!BlockIsNotEmpty(Parsed(content), BlockError) && !BlockIsNotEmpty(Parsed(content), BlockStdout))
    ensures var reply := llm(history).reply;
      var request := RequestText(if reply.content == [] then EmptyReply else MissingCode);
      ExecFrom(llm, run, stdin, history, retries)
        == Later(None, ExecFrom(llm, run, stdin, history + [AsMessage(reply), Message("user", request)], retries + 1))
  {
    ExecFromStep(llm, run, stdin, history, retries);
  }

  /** The file holds the result of writing each of `codes`, in turn, to
      `full`, whatever the outcome of each write. */
  ghost predicate WrittenInTurn(before: map<string, Entry>, full: string, codes: seq<string>, after: map<string, Entry>)
    decreases |codes|, 2
  {
    if codes == [] then after == before else WrittenLast(before, full, codes, after)
  }

  /** The writes of `codes` pass through some state before the last one. */
  ghost predicate WrittenLast(before: map<string, Entry>, full: string, codes: seq<string>, after: map<string, Entry>)
    requires codes != []
    decreases |codes|, 1
  {
    exists mid {:trigger WrittenVia(before, full, codes, mid, after)} :: WrittenVia(before, full, codes, mid, after)
  }

  /** The writes of all but the last of `codes` lead from `before` to `mid`,
      and the last write leads from `mid` to `after`. */
  ghost predicate WrittenVia(before: map<string, Entry>, full: string, codes: seq<string>,
                             mid: map<string, Entry>, after: map<string, Entry>)
    requires codes != []
    decreases |codes|, 0
  {
    && WrittenInTurn(before, full, codes[..|codes| - 1], mid)
    && exists ok: bool, msg: string {:trigger WriteEffect(mid, full, codes[|codes| - 1], ok, msg, after)} ::
         WriteEffect(mid, full, codes[|codes| - 1], ok, msg, after)
  }

  lemma WrittenSnoc(before: map<string, Entry>, full: string, codes: seq<string>, mid: map<string, Entry>,
                    code: string, ok: bool, msg: string, after: map<string, Entry>)
    requires WrittenInTurn(before, full, codes, mid)
    requires WriteEffect(mid, full, code, ok, msg, after)
    ensures WrittenInTurn(before, full, codes + [code], after)
  {
    var codes' := codes + [code];
    assert codes'[..|codes|] == codes && codes'[|codes|] == code;
    assert WrittenVia(before, full, codes', mid, after);
  }

  /** An attempt that wrote its program, if it ran one, extends the writes
      made so far. */
  lemma WrittenAttempt(before: map<string, Entry>, full: string, codes: seq<string>, mid: map<string, Entry>,
                       program: Option<string>, after: map<string, Entry>)
    requires WrittenInTurn(before, full, codes, mid)
    requires program.None? ==> after == mid
    requires program.Some? ==> exists ok: bool, msg: string :: WriteEffect(mid, full, program.value, ok, msg, after)
    ensures WrittenInTurn(before, full, codes + Ran(program), after)
  {
    if program.None? {
      assert codes + Ran(program) == codes;
    } else {
      var ok: bool, msg: string :| WriteEffect(mid, full, program.value, ok, msg, after);
      WrittenSnoc(before, full, codes, mid, program.value, ok, msg, after);
    }
  }

  /** One pass of the loop body: ask the model, check the reply, write the
      program to the output file when one is set, run it. */
  method RunAttempt(llm: Client, run: Runner, stdin: string, history: seq<Message>, retries: nat,
                    writeFile: string, fs: FileSystem)
    returns (s: Step)
    requires retries < MaxExecutionRetries
    modifies fs
    ensures s.Finish? ==> ExecFrom(llm, run, stdin, history, retries) == ExecRun(s.exitCode, s.printed, 1, Ran(s.program), false)
    ensures s.Retry? ==> ExecFrom(llm, run, stdin, history, retries) == Later(s.program, ExecFrom(llm, run, stdin, history + Appended(s), retries + 1))
    ensures writeFile == [] || s.program.None? ==> fs.entries == old(fs.entries)
    ensures writeFile != [] && s.program.Some? ==>
      exists ok: bool, msg: string :: WriteEffect(old(fs.entries), AbsPath(fs.cwd, writeFile), s.program.value, ok, msg, fs.entries)
  {
    var lastAttempt := retries >= MaxExecutionRetries - 1;
    var outcome := llm(history);
    assert ExecFrom(llm, run, stdin, history, retries) == AfterReply(llm, run, stdin, history, retries, outcome);
    if outcome.Raised? {
      return Finish(1, [], None);
    }
    var response := outcome.reply;
    if response.content == [] {
      if lastAttempt {
        return Finish(1, [], None);
      }
      return Retry(response, RequestText(EmptyReply), None);
    }
    var blocks := ParseResponse(response.content);
    if BlockIsNotEmpty(blocks, BlockError) {
      return Finish(1, [], None);
    }
    if !BlockIsNotEmpty(blocks, BlockStdout) {
      if lastAttempt {
        return Finish(1, [], None);
      }
      return Retry(response, RequestText(MissingCode), None);
    }
    var code := CleanupOutput(BlockContent(blocks, BlockStdout));
    assert code == ProgramIn(blocks);
    if writeFile != [] {
      var ok, msg := WriteToFile(fs, writeFile, code);
    }
    var ex := run(code, stdin);
    if ex.exitCode == 0 {
      return Finish(0, SuccessOutput(ex.stdout), Some(code));
    }
    if lastAttempt {
      return Finish(ex.exitCode, FailureOutput(ex.stdout), Some(code));
    }
    return Retry(response, RequestText(FixCode(ErrorOutput(ex))), Some(code));
  }

  /** `handle_execution_request`; the returned text is what is printed on
      stdout. */
  method HandleExecutionRequest(llm: Client, prompt: ExecPromptFactory, run: Runner, request: string,
                                stdinChunks: seq<string>, writeFile: string, fs: FileSystem)
    returns (exitCode: int, stdout: string)
    modifies fs
    ensures var r := Execute(llm, prompt, run, request, stdinChunks);
      exitCode == r.exitCode && stdout == r.printed
    ensures writeFile == [] ==> fs.entries == old(fs.entries)
    ensures writeFile != [] ==>
      WrittenInTurn(old(fs.entries), AbsPath(fs.cwd, writeFile), Execute(llm, prompt, run, request, stdinChunks).programs, fs.entries)
  {
    var retries: nat := 0;
    var combinedStdin := Concat(stdinChunks);
    var contextChunk := if stdinChunks == [] then "" else stdinChunks[0];
    var history := prompt(request, contextChunk);
    ghost var goal := Execute(llm, prompt, run, request, stdinChunks);
    ghost var calls: nat := 0;
    ghost var programs: seq<string> := [];
    ghost var full := if writeFile == [] then "" else AbsPath(fs.cwd, writeFile);
    while retries < MaxExecutionRetries
      invariant SoFar(calls, programs, ExecFrom(llm, run, combinedStdin, history, retries)) == goal
      invariant writeFile == [] ==> fs.entries == old(fs.entries)
      invariant writeFile != [] ==> WrittenInTurn(old(fs.entries), full, programs, fs.entries)
      decreases MaxExecutionRetries - retries
    {
      ghost var before := fs.entries;
      var step := RunAttempt(llm, run, combinedStdin, history, retries, writeFile, fs);
      if writeFile != [] {
        WrittenAttempt(old(fs.entries), full, programs, before, step.program, fs.entries);
      }
      if step.Finish? {
        assert goal.programs == programs + Ran(step.program);
        return step.exitCode, step.printed;
      }
      SoFarLater(calls, programs, step.program, ExecFrom(llm, run, combinedStdin, history + Appended(step), retries + 1));
      history := history + Appended(step);
      retries := retries + 1;
      calls := calls + 1;
      programs := programs + Ran(step.program);
      assert SoFar(calls, programs, ExecFrom(llm, run, combinedStdin, history, retries)) == goal;
    }
    assert ExecFrom(llm, run, combinedStdin, history, retries).programs == [];
    assert programs + [] == programs;
    return 1, [];
  }
}
