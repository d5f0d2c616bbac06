/** The reply parser of tulp/response_parser.py: a line-oriented state machine
    over the tag grammar of tulp/constants.py.

    A reply is bracketed by a reply-start line and a reply-end line; inside, a
    block opens with `<|||dev_file_start=NAME|||>` and closes with the shared
    `<|||dev_file_end|||>` line. The result is a map from block name to the
    block's stripped content, plus the special key `ReplyEnd` whose value is
    "True" or "False". */
module ResponseParser {
  import opened Text

  const ReplyStart := "<|||reply_start|||>"
  const ReplyEnd := "<|||reply_end|||>"
  const FileStartPrefix := "<|||dev_file_start="
  const TagSuffix := "|||>"
  const FileEnd := "<|||dev_file_end|||>"

  const BlockStdout := "stdout"
  const BlockStderr := "stderr"
  const BlockError := "error"
  const BlockContext := "context"
  const BlockThoughts := "thoughts"
  const BlockInnerMessage := "inner_message"

  const ValidBlockNames: seq<string> :=
    [BlockStdout, BlockStderr, BlockError, BlockContext, BlockThoughts, BlockInnerMessage]

  /** The parsed reply: block names and the end flag, all mapped to text. */
  type Blocks = map<string, string>

  /** The two reply brackets are different lines, so a reply that has
      both has at least two lines. */
  lemma TagsDiffer()
    ensures ReplyStart != ReplyEnd
  {
    assert ReplyStart[10] != ReplyEnd[10];
  }

  /** The start-tag line for a block name. */
  function StartTag(name: string): string {
    FileStartPrefix + name + TagSuffix
  }

  /** The regex `^<\|\|\|dev_file_start=(\w+)\|\|\|>$` as a matcher: the
      captured name when the line is a start tag. */
  function StartTagName(line: string): Option<string> {
    if |line| > |FileStartPrefix| + |TagSuffix|
       && StartsWith(line, FileStartPrefix)
       && EndsWith(line, TagSuffix)
       && AllWordChars(line[|FileStartPrefix|..|line| - |TagSuffix|])
    then Some(line[|FileStartPrefix|..|line| - |TagSuffix|])
    else None
  }

  /** What the matcher captures is a non-empty word whose start tag is the
      line itself. */
  lemma StartTagNameMatches(line: string)
    ensures var r := StartTagName(line);
      r.Some? ==> line == StartTag(r.value) && r.value != [] && AllWordChars(r.value)
  {
    if StartTagName(line).Some? {
      var name := line[|FileStartPrefix|..|line| - |TagSuffix|];
      assert line == line[..|FileStartPrefix|] + name + line[|line| - |TagSuffix|..];
    }
  }

  /** Every non-empty word is recognised in its start tag. */
  lemma StartTagRecognised(name: string)
    requires name != [] && AllWordChars(name)
    ensures StartTagName(StartTag(name)) == Some(name)
  {
    var line := StartTag(name);
    assert line[..|FileStartPrefix|] == FileStartPrefix;
    assert line[|line| - |TagSuffix|..] == TagSuffix;
    assert line[|FileStartPrefix|..|line| - |TagSuffix|] == name;
  }

  /** The reserved names are all word-character names, so each one's start
      tag is recognised. */
  lemma ValidNamesAreWords(name: string)
    requires name in ValidBlockNames
    ensures StartTagName(StartTag(name)) == Some(name)
  {
    StartTagRecognised(name);
  }

  /** A line the state machine acts on (a start tag of any name, or the end
      tag), as opposed to a content line. */
  predicate IsTagLine(line: string) {
    StartTagName(line).Some? || line == FileEnd
  }

  /** The loop state: what is stored so far, the open block and its lines. */
  datatype ParserState = ParserState(blocks: Blocks, current: Option<string>, content: seq<string>)

  /** Stored form of a block: its lines joined by line feeds, then stripped. */
  function BlockText(lines: seq<string>): string {
    Strip(Join("\n", lines))
  }

  /** Store the open block, if any, with what it has collected. */
  function Close(st: ParserState): Blocks {
    if st.current.Some? then st.blocks[st.current.value := BlockText(st.content)] else st.blocks
  }

  /** One iteration of the loop over lines. */
  function Step(st: ParserState, line: string): ParserState {
    match StartTagName(line)
    case Some(name) =>
      ParserState(Close(st), if name in ValidBlockNames then Some(name) else None, [])
    case None =>
      if line == FileEnd then
        if st.current.Some? then ParserState(Close(st), None, []) else st
      else if st.current.Some? then st.(content := st.content + [line])
      else st
  }

  /** The loop over `lines` from state `st`. */
  function Run(st: ParserState, lines: seq<string>): ParserState
    decreases |lines|
  {
    if lines == [] then st else Step(Run(st, lines[..|lines| - 1]), lines[|lines| - 1])
  }

  function Initial(endFlag: string): ParserState {
    ParserState(map[ReplyEnd := endFlag], None, [])
  }

  /** `parse_response` after `strip().splitlines()`. */
  function ParseLines(lines: seq<string>): Blocks {
    if lines == [] || lines[0] != ReplyStart then map[ReplyEnd := "False"]
    else TagsDiffer(); if lines[|lines| - 1] == ReplyEnd then Close(Run(Initial("True"), lines[1..|lines| - 1]))
    else Close(Run(Initial("False"), lines[1..]))
  }

  /** The lines `parse_response` works on. */
  function ReplyLines(text: string): seq<string> {
    SplitLines(Strip(text))
  }

  /** `parse_response(text)` */
  function Parsed(text: string): Blocks {
    ParseLines(ReplyLines(text))
  }

  /** `parse_response`: the for loop over the reply's lines. */
  method ParseResponse(text: string) returns (blocks: Blocks)
    ensures blocks == Parsed(text)
    ensures ReplyEnd in blocks
  {
    var lines := ReplyLines(text);
    if lines == [] || lines[0] != ReplyStart {
      blocks := map[ReplyEnd := "False"];
      return;
    }
    var body: seq<string>;
    var flag: string;
    TagsDiffer();
    if lines[|lines| - 1] == ReplyEnd {
      flag, body := "True", lines[1..|lines| - 1];
    } else {
      flag, body := "False", lines[1..];
    }
    blocks := ParseBody(flag, body);
    KeysOfParse(lines);
  }

  /** The loop of `parse_response` over the lines between the brackets,
      and the closing of the block still open after it. */
  method ParseBody(flag: string, body: seq<string>) returns (blocks: Blocks)
    ensures blocks == Close(Run(Initial(flag), body))
  {
    ghost var init := Initial(flag);
    blocks := map[ReplyEnd := flag];
    var current: Option<string> := None;
    var content: seq<string> := [];
    for i := 0 to |body|
      invariant Run(init, body[..i]) == ParserState(blocks, current, content)
    {
      RunSnoc(init, body, i);
      blocks, current, content := ParseLine(blocks, current, content, body[i]);
    }
    assert body[..|body|] == body;
    if current.Some? {
      blocks := blocks[current.value := BlockText(content)];
    }
  }

  /** The body of the loop of `parse_response`, for one line. */
  method ParseLine(blocks: Blocks, current: Option<string>, content: seq<string>, line: string)
    returns (blocks': Blocks, current': Option<string>, content': seq<string>)
    ensures ParserState(blocks', current', content') == Step(ParserState(blocks, current, content), line)
  {
    blocks', current', content' := blocks, current, content;
    var name := StartTagName(line);
    if name.Some? {
      if current.Some? {
        blocks' := blocks[current.value := BlockText(content)];
      }
      current' := if name.value in ValidBlockNames then Some(name.value) else None;
      content' := [];
    } else if line == FileEnd {
      if current.Some? {
        blocks' := blocks[current.value := BlockText(content)];
        current' := None;
        content' := [];
      }
    } else if current.Some? {
      content' := content + [line];
    }
  }

  lemma RunSnoc(st: ParserState, lines: seq<string>, i: nat)
    requires i < |lines|
    ensures Run(st, lines[..i + 1]) == Step(Run(st, lines[..i]), lines[i])
  {
    assert lines[..i + 1][..i] == lines[..i];
  }

  /** `has_reply_end` */
  predicate HasReplyEnd(blocks: Blocks) {
    ReplyEnd in blocks && blocks[ReplyEnd] == "True"
  }

  /** `block_exists`: key membership, never true of the end flag. */
  predicate BlockExists(blocks: Blocks, name: string) {
    name in blocks && name != ReplyEnd
  }

  /** `block_content`: the stored text, "" for a missing block or the end flag. */
  function BlockContent(blocks: Blocks, name: string): (r: string)
    ensures name == ReplyEnd ==> r == ""
    ensures !BlockExists(blocks, name) ==> r == ""
    ensures BlockExists(blocks, name) ==> r == blocks[name]
  {
    if name == ReplyEnd then "" else if name in blocks then blocks[name] else ""
  }

  /** `block_is_not_empty` */
  predicate BlockIsNotEmpty(blocks: Blocks, name: string)
    ensures BlockIsNotEmpty(blocks, name) <==> BlockExists(blocks, name) && BlockContent(blocks, name) != ""
  {
    if name == ReplyEnd then false else BlockExists(blocks, name) && BlockContent(blocks, name) != ""
  }

  // ---------------------------------------------------------------------
  // Properties of the parser

  /** The state-machine invariant: the open block, if any, has a reserved
      name, and the stored keys are reserved names or the end flag. */
  ghost predicate WellFormed(st: ParserState) {
    && (st.current.Some? ==> st.current.value in ValidBlockNames)
    && (forall k | k in st.blocks :: k == ReplyEnd || k in ValidBlockNames)
  }

  lemma ReplyEndNotABlockName()
    ensures ReplyEnd !in ValidBlockNames
  {
    assert |ReplyEnd| == 17;
  }

  lemma StepWellFormed(st: ParserState, line: string)
    requires WellFormed(st)
    ensures WellFormed(Step(st, line))
    ensures ReplyEnd in st.blocks ==>
              (ReplyEnd in Step(st, line).blocks && Step(st, line).blocks[ReplyEnd] == st.blocks[ReplyEnd])
  {
    ReplyEndNotABlockName();
  }

  lemma {:induction false} RunWellFormed(st: ParserState, lines: seq<string>)
    requires WellFormed(st)
    ensures WellFormed(Run(st, lines))
    ensures ReplyEnd in st.blocks ==>
              (ReplyEnd in Run(st, lines).blocks && Run(st, lines).blocks[ReplyEnd] == st.blocks[ReplyEnd])
    decreases |lines|
  {
    if lines != [] {
      RunWellFormed(st, lines[..|lines| - 1]);
      StepWellFormed(Run(st, lines[..|lines| - 1]), lines[|lines| - 1]);
    }
  }

  /** Only reserved names become keys, beside the end flag, which is always
      present; an unknown name never stores anything. */
  lemma KeysOfParse(lines: seq<string>)
    ensures ReplyEnd in ParseLines(lines)
    ensures forall k | k in ParseLines(lines) :: k == ReplyEnd || k in ValidBlockNames
  {
    if lines != [] && lines[0] == ReplyStart {
      if lines[|lines| - 1] == ReplyEnd {
        RunWellFormed(Initial("True"), lines[1..|lines| - 1]);
      } else {
        RunWellFormed(Initial("False"), lines[1..]);
      }
    }
  }

  /** Blank text, or text whose first line is not the reply-start tag, gives
      only the end flag "False". */
  lemma MissingStartTag(text: string)
    requires ReplyLines(text) == [] || ReplyLines(text)[0] != ReplyStart
    ensures Parsed(text) == map[ReplyEnd := "False"]
    ensures !HasReplyEnd(Parsed(text))
    ensures forall name :: !BlockExists(Parsed(text), name)
  {
  }

  /** The end flag is "True" exactly for a reply bracketed by the start and
      end tags, and "False" otherwise. */
  lemma EndFlagOfParse(lines: seq<string>)
    ensures ReplyEnd in ParseLines(lines)
    ensures ParseLines(lines)[ReplyEnd]
         == if lines != [] && lines[0] == ReplyStart && lines[|lines| - 1] == ReplyEnd then "True" else "False"
  {
    if lines != [] && lines[0] == ReplyStart {
      if lines[|lines| - 1] == ReplyEnd {
        RunWellFormed(Initial("True"), lines[1..|lines| - 1]);
      } else {
        RunWellFormed(Initial("False"), lines[1..]);
      }
    }
  }

  /** The reply is terminated exactly when its first line is the start tag
      and its last line is the end tag. */
  lemma ReplyEndIff(lines: seq<string>)
    ensures HasReplyEnd(ParseLines(lines))
      <==> lines != [] && lines[0] == ReplyStart && lines[|lines| - 1] == ReplyEnd
  {
    EndFlagOfParse(lines);
  }

  /** Neither bracketing line is parsed as content: a terminated reply parses
      as its inner lines alone. */
  lemma BracketsNotContent(body: seq<string>)
    ensures ParseLines([ReplyStart] + body + [ReplyEnd]) == Close(Run(Initial("True"), body))
  {
    var lines := [ReplyStart] + body + [ReplyEnd];
    assert lines[1..|lines| - 1] == body;
  }

  /** Run over a concatenation is the run over the second part, started where
      the first part left off. */
  lemma {:induction false} RunAppend(st: ParserState, a: seq<string>, b: seq<string>)
    ensures Run(st, a + b) == Run(Run(st, a), b)
    decreases |b|
  {
    if b == [] {
      assert a + b == a;
    } else {
      var ab := a + b;
      assert ab[..|ab| - 1] == a + b[..|b| - 1];
      RunAppend(st, a, b[..|b| - 1]);
    }
  }

  /** A line that is not a start tag, met while no block is open (a stray
      content line or a stray end tag), leaves the result unchanged. */
  lemma {:induction false} IgnoredLine(st: ParserState, before: seq<string>, line: string, after: seq<string>)
    requires Run(st, before).current.None?
    requires StartTagName(line).None?
    ensures Run(st, before + [line] + after) == Run(st, before + after)
  {
    RunAppend(st, before + [line], after);
    RunAppend(st, before, [line]);
    assert Run(Run(st, before), [line]) == Step(Run(st, before), line) by {
      assert [line][..0] == [];
    }
    RunAppend(st, before, after);
  }

  /** After a valid start tag, the content lines that follow are collected in
      order and nothing is stored for them yet. */
  lemma {:induction false} OpenBlockCollects(st: ParserState, name: string, body: seq<string>)
    requires name in ValidBlockNames
    requires forall i | 0 <= i < |body| :: !IsTagLine(body[i])
    ensures Run(st, [StartTag(name)] + body) == ParserState(Close(st), Some(name), body)
    decreases |body|
  {
    ValidNamesAreWords(name);
    if body == [] {
      assert [StartTag(name)] + body == [StartTag(name)];
      assert [StartTag(name)][..0] == [];
    } else {
      var lines := [StartTag(name)] + body;
      assert lines[..|lines| - 1] == [StartTag(name)] + body[..|body| - 1];
      OpenBlockCollects(st, name, body[..|body| - 1]);
      assert body[..|body| - 1] + [body[|body| - 1]] == body;
    }
  }

  /** A start tag with an unknown name closes the open block, if any, and
      the lines after it are discarded until the next start tag. */
  lemma {:induction false} UnknownBlockIgnored(st: ParserState, name: string, body: seq<string>)
    requires name != [] && AllWordChars(name) && name !in ValidBlockNames
    requires forall i | 0 <= i < |body| :: StartTagName(body[i]).None?
    ensures Run(st, [StartTag(name)] + body) == ParserState(Close(st), None, [])
    decreases |body|
  {
    StartTagRecognised(name);
    if body == [] {
      assert [StartTag(name)] + body == [StartTag(name)];
      assert [StartTag(name)][..0] == [];
    } else {
      var lines := [StartTag(name)] + body;
      assert lines[..|lines| - 1] == [StartTag(name)] + body[..|body| - 1];
      UnknownBlockIgnored(st, name, body[..|body| - 1]);
    }
  }

  /** A block's stored value is its collected lines joined and stripped,
      whether it is closed by the end tag, by another start tag, or by the end
      of the input. */
  lemma BlockClosedValue(st: ParserState, name: string, body: seq<string>, closer: seq<string>)
    requires name in ValidBlockNames
    requires forall i | 0 <= i < |body| :: !IsTagLine(body[i])
    requires closer == [] || (|closer| == 1 && IsTagLine(closer[0]))
    ensures closer != [] ==> name in Run(st, [StartTag(name)] + body + closer).blocks
                             && Run(st, [StartTag(name)] + body + closer).blocks[name] == BlockText(body)
    ensures closer == [] ==> name in Close(Run(st, [StartTag(name)] + body))
                             && Close(Run(st, [StartTag(name)] + body))[name] == BlockText(body)
  {
    OpenBlockCollects(st, name, body);
    if closer != [] {
      RunAppend(st, [StartTag(name)] + body, closer);
      assert closer[..0] == [];
    }
  }

  lemma StepKeepsBlock(st: ParserState, name: string, line: string)
    requires name in st.blocks && st.current != Some(name)
    requires StartTagName(line) != Some(name)
    ensures Step(st, line).current != Some(name)
    ensures name in Step(st, line).blocks && Step(st, line).blocks[name] == st.blocks[name]
  {
  }

  /** Lines that never re-open `name` keep its stored value. */
  lemma {:induction false} LaterLinesKeepBlock(st: ParserState, name: string, after: seq<string>)
    requires name in st.blocks && st.current != Some(name)
    requires forall i | 0 <= i < |after| :: StartTagName(after[i]) != Some(name)
    ensures Run(st, after).current != Some(name)
    ensures name in Run(st, after).blocks && Run(st, after).blocks[name] == st.blocks[name]
    ensures name in Close(Run(st, after)) && Close(Run(st, after))[name] == st.blocks[name]
    decreases |after|
  {
    if after != [] {
      LaterLinesKeepBlock(st, name, after[..|after| - 1]);
      StepKeepsBlock(Run(st, after[..|after| - 1]), name, after[|after| - 1]);
    }
  }

  /** From any state, a valid block followed by lines that never re-open it
      ends up stored with its collected text. */
  lemma BlockSurvives(st: ParserState, name: string, body: seq<string>,
                      closer: seq<string>, after: seq<string>)
    requires name in ValidBlockNames
    requires forall i | 0 <= i < |body| :: !IsTagLine(body[i])
    requires closer == [] || (|closer| == 1 && IsTagLine(closer[0]) && StartTagName(closer[0]) != Some(name))
    requires closer == [] ==> after == []
    requires forall i | 0 <= i < |after| :: StartTagName(after[i]) != Some(name)
    ensures var final := Close(Run(st, [StartTag(name)] + body + closer + after));
            name in final && final[name] == BlockText(body)
  {
    if closer == [] {
      assert [StartTag(name)] + body + closer + after == [StartTag(name)] + body;
      BlockClosedValue(st, name, body, closer);
    } else {
      var head := [StartTag(name)] + body + closer;
      RunAppend(st, head, after);
      BlockClosedValue(st, name, body, closer);
      OpenBlockCollects(st, name, body);
      RunAppend(st, [StartTag(name)] + body, closer);
      assert closer[..0] == [];
      LaterLinesKeepBlock(Run(st, head), name, after);
    }
  }

  /** A block name that occurs more than once keeps the content of its last
      occurrence: whatever came before, the value stored for `name` in a
      terminated reply is the text collected after its last start tag. */
  lemma LastOccurrenceWins(before: seq<string>, name: string, body: seq<string>,
                           closer: seq<string>, after: seq<string>)
    requires name in ValidBlockNames
    requires forall i | 0 <= i < |body| :: !IsTagLine(body[i])
    requires closer == [] || (|closer| == 1 && IsTagLine(closer[0]) && StartTagName(closer[0]) != Some(name))
    requires closer == [] ==> after == []
    requires forall i | 0 <= i < |after| :: StartTagName(after[i]) != Some(name)
    ensures var blocks := ParseLines([ReplyStart] + before + [StartTag(name)] + body + closer + after + [ReplyEnd]);
            name in blocks && blocks[name] == BlockText(body)
  {
    var tail := [StartTag(name)] + body + closer + after;
    var inner := before + tail;
    BracketsNotContent(inner);
    assert [ReplyStart] + before + [StartTag(name)] + body + closer + after + [ReplyEnd]
        == [ReplyStart] + inner + [ReplyEnd];
    RunAppend(Initial("True"), before, tail);
    BlockSurvives(Run(Initial("True"), before), name, body, closer, after);
  }
}
