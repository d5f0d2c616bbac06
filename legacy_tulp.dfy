/** The helpers of the legacy generator in tulp/tulp.py: its code-fence
    cleaner, its `(#name)` answer grammar, and its input chunker. This
    grammar is not the one the live reply parser reads, and nothing here is
    shared with it. */
module LegacyTulp {
  import opened Text

  const Fence := "```"

  /** The block tags of the legacy grammar, `(#end)` included. */
  const ValidBlocks: seq<string> :=
    ["(#output)", "(#thoughts)", "(#inner_message)", "(#error)", "(#context)", "(#comment)", "(#end)"]

  // ---------------------------------------------------------------------
  // cleanup_output

  /** How many of `lines` start with a fence. */
  function CountFenced(lines: seq<string>): (r: nat)
    ensures r <= |lines|
  {
    if lines == [] then 0
    else (if StartsWith(lines[0], Fence) then 1 else 0) + CountFenced(lines[1..])
  }

  /** The number of matches of the multi-line pattern `^```` in `output`: a
      match can only start the text or follow a line feed, so it counts the
      pieces between line feeds that start with a fence. */
  function FenceCount(output: string): nat {
    CountFenced(SplitOn(output, '\n'))
  }

  /** `cleanup_output`: the lines strictly between an opening fence line and
      a closing fence line, when the text holds exactly two fences; the
      input itself, not even stripped, otherwise. */
  function CleanupOutput(output: string): string {
    var olines := SplitLines(Strip(output));
    if FenceCount(output) == 2 && |olines| > 2 && StartsWith(olines[0], Fence) && olines[|olines| - 1] == Fence
    then Join("\n", olines[1..|olines| - 1])
    else output
  }

  lemma {:induction false} CountFencedAppend(a: seq<string>, b: seq<string>)
    ensures CountFenced(a + b) == CountFenced(a) + CountFenced(b)
  {
    if a != [] {
      assert (a + b)[1..] == a[1..] + b;
      CountFencedAppend(a[1..], b);
    } else {
      assert a + b == b;
    }
  }

  lemma {:induction false} CountFencedNone(lines: seq<string>)
    requires forall i | 0 <= i < |lines| :: !StartsWith(lines[i], Fence)
    ensures CountFenced(lines) == 0
  {
    if lines != [] {
      CountFencedNone(lines[1..]);
    }
  }

  /** The text of a fenced block: an opening fence with a language tag,
      the body lines, and a bare closing fence. */
  function Fenced(lang: string, body: seq<string>): string {
    Fence + lang + "\n" + Join("\n", body) + "\n" + Fence
  }

  /** The lines of a fenced block, stripped or not, are the fence lines
      around the body. */
  lemma FencedLines(lang: string, body: seq<string>)
    requires body != []
    requires '\n' !in lang
    requires forall i | 0 <= i < |body| :: '\n' !in body[i]
    ensures Strip(Fenced(lang, body)) == Fenced(lang, body)
    ensures SplitOn(Fenced(lang, body), '\n') == [Fence + lang] + body + [Fence]
    ensures SplitLines(Fenced(lang, body)) == [Fence + lang] + body + [Fence]
  {
    var lines := [Fence + lang] + body + [Fence];
    var text := Fenced(lang, body);
    JoinAppend("\n", body, Fence);
    assert lines[1..] == body + [Fence];
    assert Join("\n", lines) == text;
    assert forall i | 0 <= i < |lines| :: '\n' !in lines[i];
    SplitOnJoin(lines, '\n');
    assert text[0] == '`' && text[|text| - 1] == '`';
    StrippedIsFixpoint(text);
  }

  /** Two fences: the opening line and the closing line. */
  lemma FencedCount(lang: string, body: seq<string>)
    requires forall i | 0 <= i < |body| :: !StartsWith(body[i], Fence)
    ensures CountFenced([Fence + lang] + body + [Fence]) == 2
  {
    CountFencedAppend([Fence + lang] + body, [Fence]);
    CountFencedAppend([Fence + lang], body);
    CountFencedNone(body);
    assert StartsWith(Fence + lang, Fence);
  }

  /** Wrapping lines in a fence and cleaning gives the lines back: the
      opening line is a fence with a language tag, no body line starts with
      a fence, and the closing line is a bare fence. */
  lemma CleanupFencedBody(lang: string, body: seq<string>)
    requires body != []
    requires '\n' !in lang
    requires forall i | 0 <= i < |body| :: '\n' !in body[i] && !StartsWith(body[i], Fence)
    ensures CleanupOutput(Fenced(lang, body)) == Join("\n", body)
  {
    var lines := [Fence + lang] + body + [Fence];
    var text := Fenced(lang, body);
    assert FenceCount(text) == 2 && SplitLines(Strip(text)) == lines by {
      FencedLines(lang, body);
      FencedCount(lang, body);
    }
    assert StartsWith(lines[0], Fence) && lines[|lines| - 1] == Fence;
    CleanupUnwraps(text, lines);
    assert lines[1..|lines| - 1] == body;
  }

  lemma CleanupUnwraps(output: string, olines: seq<string>)
    requires FenceCount(output) == 2 && SplitLines(Strip(output)) == olines
    requires |olines| > 2 && StartsWith(olines[0], Fence) && olines[|olines| - 1] == Fence
    ensures CleanupOutput(output) == Join("\n", olines[1..|olines| - 1])
  {
  }

  /** Text whose fence count is not two comes back as it is, surrounding
      whitespace included. */
  lemma CleanupNotTwoFences(output: string)
    requires FenceCount(output) != 2
    ensures CleanupOutput(output) == output
  {
  }

  /** Unlike the live cleaner, this one does not strip unfenced text. */
  lemma CleanupKeepsWhitespace()
    ensures CleanupOutput(" x\n") == " x\n"
  {
    SplitOnAt(" x", "", '\n');
    assert " x\n" == " x" + ['\n'] + "";
    assert SplitOn(" x\n", '\n') == [" x", ""];
  }

  // ---------------------------------------------------------------------
  // block_exists, block_isnotempty

  /** A parsed block: the words after its tag, when there are at least two
      of them, and its text. */
  datatype Block = Block(kind: Option<string>, content: string)

  type Blocks = map<string, Block>

  /** `block_exists` */
  predicate BlockExists(blocks: Blocks, key: string) {
    key in blocks
  }

  /** `block_isnotempty` */
  predicate BlockIsNotEmpty(blocks: Blocks, key: string) {
    key in blocks && |Strip(blocks[key].content)| > 0
  }

  /** A block is not empty exactly when it exists and holds a character
      other than whitespace. */
  lemma BlockIsNotEmptyIff(blocks: Blocks, key: string)
    ensures BlockIsNotEmpty(blocks, key) <==>
      BlockExists(blocks, key) && exists i | 0 <= i < |blocks[key].content| :: !IsSpace(blocks[key].content[i])
  {
    if key in blocks {
      StripEmptyIff(blocks[key].content);
    }
  }

  // ---------------------------------------------------------------------
  // parse_response

  /** The first space-separated word of a line. */
  function LineKey(line: string): string {
    SplitOn(line, ' ')[0]
  }

  /** The rest of a tag line, when it has at least two more words. */
  function LineKind(line: string): Option<string> {
    var words := SplitOn(line, ' ');
    if |words| > 2 then Some(Join(" ", words[1..])) else None
  }

  predicate IsBlockTag(line: string) {
    LineKey(line) in ValidBlocks
  }

  /** The parser's variables: the blocks so far and the block being
      filled. */
  datatype State = State(blocks: Blocks, current: Option<string>)

  /** The block being filled is always one of the blocks. */
  predicate Consistent(st: State) {
    st.current.Some? ==> st.current.value in st.blocks
  }

  /** One line: a tag line switches to its block, creating it when it is
      new; any other line goes to the current block with a line feed; with
      no current block the parse is aborted (`None`). */
  function Step(st: State, line: string): (r: Option<State>)
    requires Consistent(st)
    ensures r.Some? ==> Consistent(r.value)
  {
    var key := LineKey(line);
    if key in ValidBlocks then
      var blocks := if key in st.blocks then st.blocks else st.blocks[key := Block(LineKind(line), "")];
      Some(State(blocks, Some(key)))
    else if st.current.Some? then
      var name := st.current.value;
      Some(st.(blocks := st.blocks[name := st.blocks[name].(content := st.blocks[name].content + line + "\n")]))
    else None
  }

  /** The parser after `lines`, or `None` once it aborted. */
  function Run(lines: seq<string>): (r: Option<State>)
    ensures r.Some? ==> Consistent(r.value)
  {
    if lines == [] then Some(State(map[], None))
    else
      match Run(lines[..|lines| - 1])
      case None => None
      case Some(st) => Step(st, lines[|lines| - 1])
  }

  /** What `parse_response` ends with: the blocks, or exit status 2. */
  datatype Parse = Parsed(blocks: Blocks) | Exit(status: int)

  function ParsedText(text: string): Parse {
    match Run(SplitLines(Strip(text)))
    case None => Exit(2)
    case Some(st) => Parsed(st.blocks)
  }

  /** `parse_response` */
  method ParseResponse(text: string) returns (r: Parse)
    ensures r == ParsedText(text)
  {
    var blocks: Blocks := map[];
    var parsing: Option<string> := None;
    var lines := SplitLines(Strip(text));
    for i := 0 to |lines|
      invariant Run(lines[..i]) == Some(State(blocks, parsing))
    {
      var line := lines[i];
      assert lines[..i + 1][..i] == lines[..i];
      var words := SplitOn(line, ' ');
      var key := words[0];
      var kind := if |words| > 2 then Some(Join(" ", words[1..])) else None;
      if key in ValidBlocks {
        parsing := Some(key);
        if key !in blocks {
          blocks := blocks[key := Block(kind, "")];
        }
      } else if parsing.Some? {
        var name := parsing.value;
        blocks := blocks[name := blocks[name].(content := blocks[name].content + line + "\n")];
      } else {
        AbortIff(lines[..i + 1]);
        AbortIff(lines);
        return Exit(2);
      }
    }
    assert lines[..|lines|] == lines;
    return Parsed(blocks);
  }

  /** The parse aborts exactly when the first line is not a block tag; once
      a tag was read there is always a current block. */
  lemma {:induction false} AbortIff(lines: seq<string>)
    ensures Run(lines).None? <==> lines != [] && !IsBlockTag(lines[0])
    ensures Run(lines).Some? && lines != [] ==> Run(lines).value.current.Some?
  {
    if lines != [] {
      var prefix := lines[..|lines| - 1];
      AbortIff(prefix);
      if prefix != [] {
        assert prefix[0] == lines[0];
      }
    }
  }

  /** A tag line switches to its block; a new block gets the line's kind and
      no text, and an existing block keeps its kind and text. A content line
      appends itself and a line feed to the current block and changes
      nothing else. */
  lemma StepEffect(st: State, line: string)
    requires Consistent(st)
    ensures var r := Step(st, line);
      && (IsBlockTag(line) ==>
            && r.Some? && r.value.current == Some(LineKey(line))
            && r.value.blocks.Keys == st.blocks.Keys + {LineKey(line)}
            && (forall k | k in st.blocks :: r.value.blocks[k] == st.blocks[k])
            && (LineKey(line) !in st.blocks ==> r.value.blocks[LineKey(line)] == Block(LineKind(line), "")))
      && (!IsBlockTag(line) && st.current.Some? ==>
            var name := st.current.value;
            && r.Some? && r.value.current == st.current
            && r.value.blocks.Keys == st.blocks.Keys
            && r.value.blocks[name] == Block(st.blocks[name].kind, st.blocks[name].content + line + "\n")
            && (forall k | k in st.blocks && k != name :: r.value.blocks[k] == st.blocks[k]))
      && (!IsBlockTag(line) && st.current.None? ==> r.None?)
  {
  }

  /** A tag line's kind: the words after the tag when there are at least two
      of them, and none for a bare tag or a tag and one word. */
  lemma LineKindOf(key: string, words: seq<string>)
    requires ' ' !in key
    requires forall i | 0 <= i < |words| :: ' ' !in words[i]
    ensures var line := if words == [] then key else key + " " + Join(" ", words);
      && LineKey(line) == key
      && LineKind(line) == (if |words| >= 2 then Some(Join(" ", words)) else None)
  {
    var all := [key] + words;
    if words == [] {
      SplitOnFree(key, ' ');
    } else {
      assert all[1..] == words;
      assert Join(" ", all) == key + " " + Join(" ", words);
      SplitOnJoin(all, ' ');
    }
  }

  /** The text of lines, each followed by a line feed. */
  function Terminated(lines: seq<string>): (r: string)
    ensures |r| >= |lines|
  {
    if lines == [] then "" else Terminated(lines[..|lines| - 1]) + lines[|lines| - 1] + "\n"
  }

  /** A tag line followed by lines that are not tags parses to that one
      block, holding each of the lines followed by a line feed. */
  lemma {:induction false} SingleBlock(tag: string, body: seq<string>)
    requires IsBlockTag(tag)
    requires forall i | 0 <= i < |body| :: !IsBlockTag(body[i])
    ensures Run([tag] + body) == Some(State(map[LineKey(tag) := Block(LineKind(tag), Terminated(body))], Some(LineKey(tag))))
  {
    var key := LineKey(tag);
    if body == [] {
      assert ([tag] + body)[..0] == [];
    } else {
      var lines := [tag] + body;
      var prefix := body[..|body| - 1];
      var last := body[|body| - 1];
      assert lines[..|lines| - 1] == [tag] + prefix;
      assert lines[|lines| - 1] == last;
      SingleBlock(tag, prefix);
      var st := State(map[key := Block(LineKind(tag), Terminated(prefix))], Some(key));
      assert Run(lines) == Step(st, last);
      assert LineKey(last) !in ValidBlocks by {
        assert last == body[|body| - 1];
      }
      assert body[..|body| - 1] == prefix;
      assert Terminated(body) == Terminated(prefix) + last + "\n";
      assert st.blocks[key := Block(LineKind(tag), Terminated(body))] == map[key := Block(LineKind(tag), Terminated(body))];
    }
  }

  // ---------------------------------------------------------------------
  // pre_process_raw_input

  function Min(a: int, b: int): int {
    if a <= b then a else b
  }

  /** The `i`-th slice of width `width` of `line`, cut short at its end. */
  function Slice(line: string, width: nat, i: nat): (r: string)
    requires width > 0
    ensures |r| <= width
  {
    line[Min(i * width, |line|)..Min((i + 1) * width, |line|)]
  }

  /** The first `count` slices of width `width` of `line`. */
  function Slices(line: string, width: nat, count: nat): (r: seq<string>)
    requires width > 0
    ensures |r| == count
    ensures forall i | 0 <= i < count :: r[i] == Slice(line, width, i)
  {
    if count == 0 then [] else Slices(line, width, count - 1) + [Slice(line, width, count - 1)]
  }

  /** The chunks after one more line, `chunks` ending with the chunk being
      filled: the line and a line feed join it when they fit strictly under
      `maxChars`; otherwise, when the chunk is not empty, a short line
      starts a new chunk, and a long one is cut into `len / maxChars + 1`
      slices after a line feed closes the chunk; when the chunk is empty,
      the line is dropped. */
  function ChunkStep(maxChars: int, chunks: seq<string>, line: string): (r: seq<string>)
    requires chunks != []
    requires maxChars <= 0 ==> chunks == [""]
    ensures r != []
    ensures maxChars <= 0 ==> r == [""]
  {
    var index := |chunks| - 1;
    var last := chunks[index];
    if |last| + |line| < maxChars then chunks[index := last + line + "\n"]
    else if |last| != 0 then
      if |line| < maxChars then chunks + [line + "\n"]
      else (chunks + Slices(line, maxChars, |line| / maxChars + 1))[index := last + "\n"]
    else chunks
  }

  /** The chunks of `lines`, starting from one empty chunk. */
  function Chunks(maxChars: int, lines: seq<string>): (r: seq<string>)
    ensures r != []
    ensures maxChars <= 0 ==> r == [""]
  {
    if lines == [] then [""] else ChunkStep(maxChars, Chunks(maxChars, lines[..|lines| - 1]), lines[|lines| - 1])
  }

  /** The chunks of a prefix one line longer. */
  lemma ChunksSnoc(maxChars: int, lines: seq<string>, k: nat)
    requires k < |lines|
    ensures Chunks(maxChars, lines[..k + 1]) == ChunkStep(maxChars, Chunks(maxChars, lines[..k]), lines[k])
  {
    assert lines[..k + 1][..k] == lines[..k];
  }

  /** The slicing loop of `pre_process_raw_input`: append every slice of
      width `maxChars` of `line`, the last one possibly empty. */
  method AppendSlices(chunks: seq<string>, line: string, maxChars: int) returns (r: seq<string>)
    requires maxChars > 0
    ensures r == chunks + Slices(line, maxChars, |line| / maxChars + 1)
  {
    r := chunks;
    for i := 0 to |line| / maxChars + 1
      invariant r == chunks + Slices(line, maxChars, i)
    {
      var start := Min(i * maxChars, |line|);
      var end := Min((i + 1) * maxChars, |line|);
      r := r + [line[start..end]];
    }
  }

  /** `pre_process_raw_input`, with `config.max_chars` as `maxChars`. */
  method PreProcessRawInput(maxChars: int, inputText: string) returns (rawInputChunks: seq<string>)
    ensures rawInputChunks == Chunks(maxChars, SplitLines(inputText))
  {
    var compressed := [""];
    var inputLines := SplitLines(inputText);
    for k := 0 to |inputLines|
      invariant compressed == Chunks(maxChars, inputLines[..k])
    {
      ChunksSnoc(maxChars, inputLines, k);
      var line := inputLines[k];
      var index := |compressed| - 1;
      var clen := |compressed[index]|;
      if clen + |line| < maxChars {
        compressed := compressed[index := compressed[index] + line + "\n"];
      } else if clen != 0 {
        if |line| < maxChars {
          compressed := compressed + [line + "\n"];
        } else {
          var last := compressed[index];
          compressed := AppendSlices(compressed, line, maxChars);
          compressed := compressed[index := last + "\n"];
        }
      }
    }
    assert inputLines[..|inputLines|] == inputLines;
    rawInputChunks := CopyChunks(compressed);
  }

  /** The closing loop of `pre_process_raw_input`: copy the chunks, one by
      one, into the returned list. */
  method CopyChunks(chunks: seq<string>) returns (r: seq<string>)
    ensures r == chunks
  {
    r := [];
    for k := 0 to |chunks|
      invariant r == chunks[..k]
    {
      r := r + [chunks[k]];
    }
    assert chunks[..|chunks|] == chunks;
  }

  // ---------------------------------------------------------------------
  // Properties of the legacy chunker

  lemma MulSucc(q: nat, w: nat)
    ensures (q + 1) * w == q * w + w
  {
  }

  /** The first `count` slices put back together are the line up to the
      end of the last of them. */
  lemma {:induction false} SlicesPrefix(line: string, width: nat, count: nat)
    requires width > 0
    ensures Concat(Slices(line, width, count)) == line[..Min(count * width, |line|)]
  {
    if count > 0 {
      var init := Slices(line, width, count - 1);
      var piece := Slice(line, width, count - 1);
      var a, b := Min((count - 1) * width, |line|), Min(count * width, |line|);
      assert a <= b by {
        MulSucc(count - 1, width);
      }
      assert Concat(init) == line[..a] by {
        SlicesPrefix(line, width, count - 1);
      }
      assert Concat(Slices(line, width, count)) == Concat(init) + piece by {
        assert Slices(line, width, count) == init + [piece];
        ConcatAppend(init, piece);
      }
      assert piece == line[a..b];
      PrefixSplit(line, a, b);
    }
  }

  lemma PrefixSplit(line: string, a: nat, b: nat)
    requires a <= b <= |line|
    ensures line[..b] == line[..a] + line[a..b]
  {
  }

  /** The division of a length by a width, in the terms the slicing uses. */
  lemma Quotient(n: nat, width: nat)
    requires width > 0
    ensures n / width * width <= n < (n / width + 1) * width
    ensures n - n / width * width == n % width
  {
    MulSucc(n / width, width);
  }

  /** The `len / width + 1` slices of a long line are the line once more,
      and none is wider than `width`. */
  lemma SlicesWhole(line: string, width: nat)
    requires width > 0
    ensures Concat(Slices(line, width, |line| / width + 1)) == line
  {
    Quotient(|line|, width);
    SlicesPrefix(line, width, |line| / width + 1);
    assert line[..|line|] == line;
  }

  /** The last slice holds the remainder of the division: it is empty when
      `width` divides the length. */
  lemma LastSlice(line: string, width: nat)
    requires width > 0
    ensures var s := Slices(line, width, |line| / width + 1);
      |s[|s| - 1]| == |line| % width
  {
    var q := |line| / width;
    Quotient(|line|, width);
    assert Slice(line, width, q) == line[q * width..|line|];
  }

  /** Appending to the chunk being filled appends to the whole text. */
  lemma ConcatExtendLast(chunks: seq<string>, x: string)
    requires chunks != []
    ensures Concat(chunks[|chunks| - 1 := chunks[|chunks| - 1] + x]) == Concat(chunks) + x
  {
    var n := |chunks| - 1;
    var init := chunks[..n];
    assert chunks == init + [chunks[n]];
    assert chunks[n := chunks[n] + x] == init + [chunks[n] + x];
    ConcatAppend(init, chunks[n]);
    ConcatAppend(init, chunks[n] + x);
  }

  /** Chunks no longer than `maxChars`, save a closing line feed; the chunk
      being filled has no closing line feed yet. */
  predicate Bounded(chunks: seq<string>, maxChars: int) {
    && chunks != []
    && (forall i | 0 <= i < |chunks| :: |chunks[i]| <= maxChars + 1)
    && |chunks[|chunks| - 1]| <= maxChars
  }

  lemma ChunkStepBounded(maxChars: int, chunks: seq<string>, line: string)
    requires maxChars > 0 && Bounded(chunks, maxChars)
    ensures Bounded(ChunkStep(maxChars, chunks, line), maxChars)
  {
    var index := |chunks| - 1;
    var last := chunks[index];
    var r := ChunkStep(maxChars, chunks, line);
    if |last| + |line| >= maxChars && |last| != 0 && |line| >= maxChars {
      var s := Slices(line, maxChars, |line| / maxChars + 1);
      assert r == (chunks + s)[index := last + "\n"];
      assert forall i | |chunks| <= i < |r| :: r[i] == s[i - |chunks|];
    }
  }

  /** Every chunk holds at most `maxChars` characters and a line feed, and
      the last one at most `maxChars`: a chunk filled up to `maxChars` gets
      one more character when a long line closes it. */
  lemma {:induction false} ChunksBounded(maxChars: int, lines: seq<string>)
    requires maxChars > 0
    ensures Bounded(Chunks(maxChars, lines), maxChars)
  {
    if lines != [] {
      ChunksBounded(maxChars, lines[..|lines| - 1]);
      ChunkStepBounded(maxChars, Chunks(maxChars, lines[..|lines| - 1]), lines[|lines| - 1]);
    }
  }

  /** Lines shorter than `maxChars` are never cut nor dropped: the chunks
      put together are the lines, each followed by a line feed. */
  lemma {:induction false} ChunksShortLines(maxChars: int, lines: seq<string>)
    requires forall i | 0 <= i < |lines| :: |lines[i]| < maxChars
    ensures Concat(Chunks(maxChars, lines)) == Terminated(lines)
  {
    if lines != [] {
      var prefix := lines[..|lines| - 1];
      var line := lines[|lines| - 1];
      ChunksShortLines(maxChars, prefix);
      var chunks := Chunks(maxChars, prefix);
      var last := chunks[|chunks| - 1];
      assert Terminated(lines) == Terminated(prefix) + (line + "\n");
      if |last| + |line| < maxChars {
        assert last + line + "\n" == last + (line + "\n");
        ConcatExtendLast(chunks, line + "\n");
      } else {
        ConcatAppend(chunks, line + "\n");
      }
    }
  }

  /** A line of at least `maxChars` characters that meets an empty current
      chunk is dropped. */
  lemma ChunkStepDropsLongLine(maxChars: int, chunks: seq<string>, line: string)
    requires chunks != [] && (maxChars <= 0 ==> chunks == [""])
    requires chunks[|chunks| - 1] == "" && |line| >= maxChars
    ensures ChunkStep(maxChars, chunks, line) == chunks
  {
  }

  /** Leading lines of at least `maxChars` characters are all lost: the
      input starts with an empty chunk, so each of them meets one. */
  lemma {:induction false} ChunksDropLongLines(maxChars: int, lines: seq<string>)
    requires forall i | 0 <= i < |lines| :: |lines[i]| >= maxChars
    ensures Chunks(maxChars, lines) == [""]
  {
    if lines != [] {
      ChunksDropLongLines(maxChars, lines[..|lines| - 1]);
      ChunkStepDropsLongLine(maxChars, [""], lines[|lines| - 1]);
    }
  }

  /** A three-character window and the single line "abcd": nothing of the
      input is left. */
  lemma LongFirstLineIsLost()
    ensures Chunks(3, SplitLines("abcd")) == [""]
    ensures Concat(Chunks(3, SplitLines("abcd"))) == ""
  {
    SplitOnFree("abcd", '\n');
    ChunksDropLongLines(3, ["abcd"]);
  }

  /** The text without its line feeds. */
  function Unlined(s: string): string {
    if s == [] then [] else (if s[0] == '\n' then "" else [s[0]]) + Unlined(s[1..])
  }

  lemma {:induction false} UnlinedAppend(a: string, b: string)
    ensures Unlined(a + b) == Unlined(a) + Unlined(b)
  {
    if a == [] {
      assert a + b == b;
    } else {
      var head := if a[0] == '\n' then "" else [a[0]];
      assert (a + b)[0] == a[0] && (a + b)[1..] == a[1..] + b;
      assert Unlined(a + b) == head + Unlined(a[1..] + b);
      UnlinedAppend(a[1..], b);
      assert Unlined(a) == head + Unlined(a[1..]);
      assert head + (Unlined(a[1..]) + Unlined(b)) == (head + Unlined(a[1..])) + Unlined(b);
    }
  }

  lemma {:induction false} UnlinedFree(s: string)
    requires '\n' !in s
    ensures Unlined(s) == s
  {
    if s != [] {
      UnlinedFree(s[1..]);
      assert [s[0]] + s[1..] == s;
    }
  }

  /** The chunker with the dropped case repaired: a long line that meets an
      empty current chunk is sliced in its place. */
  function ChunkStepFixed(maxChars: int, chunks: seq<string>, line: string): (r: seq<string>)
    requires maxChars > 0 && chunks != []
    ensures r != []
  {
    var index := |chunks| - 1;
    if |chunks[index]| == 0 && |line| >= maxChars then chunks[..index] + Slices(line, maxChars, |line| / maxChars + 1)
    else ChunkStep(maxChars, chunks, line)
  }

  function ChunksFixed(maxChars: int, lines: seq<string>): (r: seq<string>)
    requires maxChars > 0
    ensures r != []
  {
    if lines == [] then [""] else ChunkStepFixed(maxChars, ChunksFixed(maxChars, lines[..|lines| - 1]), lines[|lines| - 1])
  }

  /** What one repaired step adds to the text: the line and a line feed
      when it joins the current chunk or starts a new one, the line alone
      when it replaces an empty chunk, and a line feed then the line when
      it is sliced after a non-empty chunk. */
  function Added(maxChars: int, last: string, line: string): string {
    if |last| + |line| < maxChars || (|last| != 0 && |line| < maxChars) then line + "\n"
    else if |last| == 0 then line
    else "\n" + line
  }

  lemma ChunkStepFixedText(maxChars: int, chunks: seq<string>, line: string)
    requires maxChars > 0 && chunks != []
    ensures Concat(ChunkStepFixed(maxChars, chunks, line)) == Concat(chunks) + Added(maxChars, chunks[|chunks| - 1], line)
  {
    var last := chunks[|chunks| - 1];
    if |last| + |line| < maxChars {
      FixedStepFits(maxChars, chunks, line);
    } else if |last| == 0 {
      FixedStepSlicesLine(maxChars, chunks, line);
    } else if |line| < maxChars {
      FixedStepOpensChunk(maxChars, chunks, line);
    } else {
      FixedStepClosesChunk(maxChars, chunks, line);
    }
  }

  lemma FixedStepFits(maxChars: int, chunks: seq<string>, line: string)
    requires maxChars > 0 && chunks != []
    requires |chunks[|chunks| - 1]| + |line| < maxChars
    ensures Concat(ChunkStepFixed(maxChars, chunks, line)) == Concat(chunks) + (line + "\n")
  {
    var index := |chunks| - 1;
    var last := chunks[index];
    assert ChunkStepFixed(maxChars, chunks, line) == chunks[index := last + line + "\n"];
    assert last + line + "\n" == last + (line + "\n");
    ConcatExtendLast(chunks, line + "\n");
  }

  lemma FixedStepSlicesLine(maxChars: int, chunks: seq<string>, line: string)
    requires maxChars > 0 && chunks != []
    requires |chunks[|chunks| - 1]| == 0 && |line| >= maxChars
    ensures Concat(ChunkStepFixed(maxChars, chunks, line)) == Concat(chunks) + line
  {
    var index := |chunks| - 1;
    var s := Slices(line, maxChars, |line| / maxChars + 1);
    assert ChunkStepFixed(maxChars, chunks, line) == chunks[..index] + s;
    assert Concat(s) == line by {
      SlicesWhole(line, maxChars);
    }
    assert Concat(chunks) == Concat(chunks[..index]) by {
      ConcatDropLast(chunks);
    }
    ConcatConcat(chunks[..index], s);
  }

  lemma FixedStepOpensChunk(maxChars: int, chunks: seq<string>, line: string)
    requires maxChars > 0 && chunks != []
    requires |chunks[|chunks| - 1]| + |line| >= maxChars
    requires |chunks[|chunks| - 1]| != 0 && |line| < maxChars
    ensures Concat(ChunkStepFixed(maxChars, chunks, line)) == Concat(chunks) + (line + "\n")
  {
    assert ChunkStepFixed(maxChars, chunks, line) == chunks + [line + "\n"];
    ConcatAppend(chunks, line + "\n");
  }

  lemma FixedStepClosesChunk(maxChars: int, chunks: seq<string>, line: string)
    requires maxChars > 0 && chunks != []
    requires |chunks[|chunks| - 1]| != 0 && |line| >= maxChars
    ensures Concat(ChunkStepFixed(maxChars, chunks, line)) == Concat(chunks) + ("\n" + line)
  {
    var index := |chunks| - 1;
    var last := chunks[index];
    var s := Slices(line, maxChars, |line| / maxChars + 1);
    var closed := chunks[index := last + "\n"];
    assert ChunkStepFixed(maxChars, chunks, line) == closed + s by {
      assert ChunkStepFixed(maxChars, chunks, line) == (chunks + s)[index := last + "\n"];
      UpdateAppend(chunks, s, index, last + "\n");
    }
    assert Concat(s) == line by {
      SlicesWhole(line, maxChars);
    }
    assert Concat(closed) == Concat(chunks) + "\n" by {
      ConcatExtendLast(chunks, "\n");
    }
    ConcatConcat(closed, s);
    assert Concat(chunks) + "\n" + line == Concat(chunks) + ("\n" + line);
  }

  lemma UnlinedLineFeed()
    ensures Unlined("\n") == ""
  {
    assert "\n"[1..] == [];
  }

  /** Line feeds aside, a step adds exactly the line. */
  lemma UnlinedAdded(before: string, maxChars: int, last: string, line: string)
    requires '\n' !in line
    ensures Unlined(before + Added(maxChars, last, line)) == Unlined(before) + line
  {
    var added := Added(maxChars, last, line);
    UnlinedAppend(before, added);
    assert Unlined(added) == line by {
      UnlinedFree(line);
      UnlinedLineFeed();
      if |last| + |line| < maxChars || (|last| != 0 && |line| < maxChars) {
        UnlinedAppend(line, "\n");
      } else if |last| != 0 {
        UnlinedAppend("\n", line);
      }
    }
  }

  /** With the repair no character of the input is lost: the chunks put
      together, line feeds aside, are the lines put together. */
  lemma {:induction false} ChunksFixedKeepText(maxChars: int, lines: seq<string>)
    requires maxChars > 0
    requires forall i | 0 <= i < |lines| :: '\n' !in lines[i]
    ensures Unlined(Concat(ChunksFixed(maxChars, lines))) == Concat(lines)
  {
    if lines != [] {
      var prefix := lines[..|lines| - 1];
      var line := lines[|lines| - 1];
      var chunks := ChunksFixed(maxChars, prefix);
      assert Unlined(Concat(chunks)) == Concat(prefix) by {
        ChunksFixedKeepText(maxChars, prefix);
      }
      assert Unlined(Concat(ChunksFixed(maxChars, lines))) == Unlined(Concat(chunks)) + line by {
        ChunkStepFixedText(maxChars, chunks, line);
        UnlinedAdded(Concat(chunks), maxChars, chunks[|chunks| - 1], line);
      }
      assert Concat(lines) == Concat(prefix) + line by {
        assert lines == prefix + [line];
        ConcatAppend(prefix, line);
      }
    }
  }
}
