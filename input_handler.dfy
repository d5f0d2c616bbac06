/** `chunk_stdin` of tulp/input_handler.py: cut piped input into pieces of at
    most `maxChars` characters, keeping whole lines together where it can and
    hard-slicing a line that cannot fit on its own. */
module InputHandler {
  import opened Text

  /** `s[k:]` with Python's clamping: empty once `k` is past the end. */
  function Drop(s: string, k: nat): (r: string)
    ensures |r| == if k >= |s| then 0 else |s| - k
  {
    if k >= |s| then [] else s[k..]
  }

  /** The pieces the inner while loop cuts a line into: consecutive slices of
      `maxChars` characters, the last one possibly shorter. */
  function Slices(line: string, maxChars: nat): (r: seq<string>)
    requires maxChars > 0
    decreases |line|
  {
    if line == [] then []
    else if |line| <= maxChars then [line]
    else [line[..maxChars]] + Slices(line[maxChars..], maxChars)
  }

  /** One iteration of the for loop: where `line` goes, given the chunks so
      far (the last one is the current chunk). */
  function Place(chunks: seq<string>, line: string, maxChars: nat): (r: seq<string>)
    requires maxChars > 0
    requires chunks != []
  {
    var cur := chunks[|chunks| - 1];
    if |cur| == 0 || |cur| + |line| + 1 <= maxChars then
      chunks[..|chunks| - 1] + [cur + (if |cur| > 0 then "\n" else "") + line]
    else if |line| <= maxChars then chunks + [line]
    else chunks + Slices(line, maxChars)
  }

  /** The list `compressed_lines` after the for loop has seen `lines`. */
  function Pack(lines: seq<string>, maxChars: nat): (r: seq<string>)
    requires maxChars > 0
    ensures r != []
    decreases |lines|
  {
    if lines == [] then [""]
    else Place(Pack(lines[..|lines| - 1], maxChars), lines[|lines| - 1], maxChars)
  }

  /** `chunk_stdin(input_text, config)` with `config.max_chars == maxChars`. */
  function Chunks(input: string, maxChars: nat): seq<string>
    requires maxChars > 0
  {
    if input == [] then []
    else if |input| <= maxChars then [input]
    else NonEmpty(Pack(SplitLines(input), maxChars))
  }

  /** The slicing loop: appends the slices of `line` to `chunks`. */
  method AppendSlices(chunks: seq<string>, line: string, maxChars: nat) returns (r: seq<string>)
    requires maxChars > 0
    ensures r == chunks + Slices(line, maxChars)
  {
    r := chunks;
    var start := 0;
    while start < |line|
      invariant r + Slices(Drop(line, start), maxChars) == chunks + Slices(line, maxChars)
      decreases |line| - start
    {
      var end := start + maxChars;
      var piece := line[start..if end <= |line| then end else |line|];
      SlicesAppendStep(r, line, start, maxChars);
      r := r + [piece];
      start := end;
    }
    assert Drop(line, start) == [];
  }

  /** `chunk_stdin`: the for loop over lines growing `compressed_lines`. */
  method ChunkStdin(input: string, maxChars: nat) returns (chunks: seq<string>)
    requires maxChars > 0
    ensures chunks == Chunks(input, maxChars)
  {
    if input == [] {
      return [];
    }
    if |input| <= maxChars {
      return [input];
    }
    var compressed := [""];
    var lines := SplitLines(input);
    for i := 0 to |lines|
      invariant compressed == Pack(lines[..i], maxChars)
    {
      var line := lines[i];
      assert lines[..i + 1][..i] == lines[..i];
      var idx := |compressed| - 1;
      var curLen := |compressed[idx]|;
      var withNewline := |line| + (if curLen > 0 then 1 else 0);
      if curLen == 0 || curLen + withNewline <= maxChars {
        var separator := if curLen > 0 then "\n" else "";
        compressed := compressed[..idx] + [compressed[idx] + separator + line];
      } else if |line| <= maxChars {
        compressed := compressed + [line];
      } else {
        compressed := AppendSlices(compressed, line, maxChars);
      }
    }
    assert lines[..|lines|] == lines;
    chunks := NonEmpty(compressed);
  }

  // ---------------------------------------------------------------------
  // Properties of the chunker

  /** One turn of the slicing loop, seen on the remaining suffix. */
  lemma SlicesStep(line: string, start: nat, maxChars: nat)
    requires maxChars > 0 && start < |line|
    ensures var end := start + maxChars;
            Slices(Drop(line, start), maxChars)
            == [line[start..if end <= |line| then end else |line|]] + Slices(Drop(line, end), maxChars)
  {
    var rest := line[start..];
    assert Drop(line, start) == rest;
    if |rest| > maxChars {
      assert rest[..maxChars] == line[start..start + maxChars];
      assert rest[maxChars..] == line[start + maxChars..];
    } else {
      assert line[start..|line|] == rest;
    }
  }

  /** One turn of the slicing loop keeps what is still to be appended. */
  lemma SlicesAppendStep(r: seq<string>, line: string, start: nat, maxChars: nat)
    requires maxChars > 0 && start < |line|
    ensures var end := start + maxChars;
            (r + [line[start..if end <= |line| then end else |line|]]) + Slices(Drop(line, end), maxChars)
            == r + Slices(Drop(line, start), maxChars)
  {
    SlicesStep(line, start, maxChars);
  }

  /** The slices of a line are non-empty, all but the last have exactly
      `maxChars` characters, none has more, and together they are the line. */
  lemma {:induction false} SlicesCover(line: string, maxChars: nat)
    requires maxChars > 0
    ensures Concat(Slices(line, maxChars)) == line
    ensures forall i | 0 <= i < |Slices(line, maxChars)| ::
              0 < |Slices(line, maxChars)[i]| <= maxChars
    ensures forall i | 0 <= i < |Slices(line, maxChars)| - 1 :: |Slices(line, maxChars)[i]| == maxChars
    decreases |line|
  {
    if |line| > maxChars {
      SlicesCover(line[maxChars..], maxChars);
      var r := Slices(line, maxChars);
      assert r[1..] == Slices(line[maxChars..], maxChars);
      assert line == line[..maxChars] + line[maxChars..];
    }
  }

  /** Chunks that fit or are whole lines of `lines`. */
  ghost predicate FitOrLine(chunks: seq<string>, lines: seq<string>, maxChars: nat) {
    forall i | 0 <= i < |chunks| :: |chunks[i]| <= maxChars || chunks[i] in lines
  }

  lemma PlaceBound(chunks: seq<string>, line: string, lines: seq<string>, maxChars: nat)
    requires maxChars > 0 && chunks != []
    requires FitOrLine(chunks, lines, maxChars) && line in lines
    ensures FitOrLine(Place(chunks, line, maxChars), lines, maxChars)
  {
    var cur := chunks[|chunks| - 1];
    var r := Place(chunks, line, maxChars);
    if |cur| == 0 {
      assert cur + "" + line == line;
      assert forall i | 0 <= i < |r| - 1 :: r[i] == chunks[i];
    } else if |cur| + |line| + 1 <= maxChars {
      assert forall i | 0 <= i < |r| - 1 :: r[i] == chunks[i];
    } else if |line| > maxChars {
      SlicesCover(line, maxChars);
      var sl := Slices(line, maxChars);
      assert forall i | |chunks| <= i < |r| :: r[i] == sl[i - |chunks|];
    }
  }

  lemma FitOrLineWiden(chunks: seq<string>, lines: seq<string>, line: string, maxChars: nat)
    requires FitOrLine(chunks, lines, maxChars)
    ensures FitOrLine(chunks, lines + [line], maxChars)
  {
    forall i | 0 <= i < |chunks| && chunks[i] in lines
      ensures chunks[i] in lines + [line]
    {
    }
  }

  /** A chunk longer than `maxChars` is always a whole input line: one that
      was put into an empty current chunk and could not be joined to. */
  lemma {:induction false} PackBound(lines: seq<string>, maxChars: nat)
    requires maxChars > 0
    ensures FitOrLine(Pack(lines, maxChars), lines, maxChars)
    decreases |lines|
  {
    if lines != [] {
      var prefix := lines[..|lines| - 1];
      var line := lines[|lines| - 1];
      assert lines == prefix + [line];
      PackBound(prefix, maxChars);
      FitOrLineWiden(Pack(prefix, maxChars), prefix, line, maxChars);
      PlaceBound(Pack(prefix, maxChars), line, lines, maxChars);
    }
  }

  /** Every chunk is non-empty and either fits in `maxChars` or is a whole
      input line that had to go first into an empty chunk. */
  lemma ChunksBound(input: string, maxChars: nat)
    requires maxChars > 0
    ensures forall c | c in Chunks(input, maxChars) :: c != []
    ensures forall c | c in Chunks(input, maxChars) :: |c| <= maxChars || c in SplitLines(input)
  {
    if |input| > maxChars {
      PackBound(SplitLines(input), maxChars);
      NonEmptyIn(Pack(SplitLines(input), maxChars));
    }
  }

  /** Empty input gives no chunk; input that fits gives itself as one chunk. */
  lemma ChunksShortInput(input: string, maxChars: nat)
    requires maxChars > 0 && |input| <= maxChars
    ensures input == [] ==> Chunks(input, maxChars) == []
    ensures input != [] ==> Chunks(input, maxChars) == [input]
  {
  }

  /** An over-long first line is not sliced: with a limit of 1, "ab\nc"
      comes out as a 2-character chunk followed by "c". */
  lemma LongFirstLineNotSliced()
    ensures Chunks("ab\nc", 1) == ["ab", "c"]
  {
    assert SplitOn("", '\n') == [""];
    assert SplitOn("c", '\n') == ["c"] by {
      assert "c"[1..] == "";
      assert ['c'] + "" == "c";
    }
    assert SplitOn("\nc", '\n') == ["", "c"] by {
      assert "\nc"[1..] == "c";
    }
    assert SplitOn("b\nc", '\n') == ["b", "c"] by {
      assert "b\nc"[1..] == "\nc";
      assert ['b'] + "" == "b";
      assert ["", "c"][1..] == ["c"];
    }
    assert SplitOn("ab\nc", '\n') == ["ab", "c"] by {
      assert "ab\nc"[1..] == "b\nc";
      assert ['a'] + "b" == "ab";
      assert ["b", "c"][1..] == ["c"];
    }
    var lines := SplitLines("ab\nc");
    assert lines == ["ab", "c"];
    assert lines[..1] == ["ab"] && lines[..1][..0] == [];
    assert Pack([], 1) == [""];
    assert "" + "" + "ab" == "ab";
    assert Pack(lines[..1], 1) == ["ab"];
  }

  lemma JoinReplaceLast(p: seq<string>, cur: string, y: string)
    ensures Join("\n", p + [cur + "\n" + y]) == Join("\n", p + [cur]) + "\n" + y
  {
    if p == [] {
      assert p + [cur + "\n" + y] == [cur + "\n" + y];
      assert p + [cur] == [cur];
    } else {
      JoinAppend("\n", p, cur + "\n" + y);
      JoinAppend("\n", p, cur);
    }
  }

  /** Packing lines that are non-empty and each within the limit loses and
      adds nothing: the chunks rejoined by line feeds are the lines rejoined
      by line feeds, and no chunk is empty. */
  lemma {:induction false} PackReconstructs(lines: seq<string>, maxChars: nat)
    requires maxChars > 0 && lines != []
    requires forall i | 0 <= i < |lines| :: lines[i] != [] && |lines[i]| <= maxChars
    ensures Join("\n", Pack(lines, maxChars)) == Join("\n", lines)
    ensures forall i | 0 <= i < |Pack(lines, maxChars)| :: Pack(lines, maxChars)[i] != []
    decreases |lines|
  {
    var prefix := lines[..|lines| - 1];
    var line := lines[|lines| - 1];
    assert lines == prefix + [line];
    if prefix == [] {
      assert Pack(prefix, maxChars) == [""];
      assert "" + "" + line == line;
      assert [""][..0] == [];
      assert lines[..|lines| - 1] == [];
    } else {
      PackReconstructs(prefix, maxChars);
      var chunks := Pack(prefix, maxChars);
      var cur := chunks[|chunks| - 1];
      JoinAppend("\n", prefix, line);
      if |cur| + |line| + 1 <= maxChars {
        assert chunks == chunks[..|chunks| - 1] + [cur];
        JoinReplaceLast(chunks[..|chunks| - 1], cur, line);
      } else {
        JoinAppend("\n", chunks, line);
      }
    }
  }

  /** When no line is empty or longer than the limit, the chunks rejoined by
      line feeds are the input's lines rejoined by line feeds. */
  lemma ChunksReconstruct(input: string, maxChars: nat)
    requires maxChars > 0 && |input| > maxChars
    requires forall i | 0 <= i < |SplitLines(input)| ::
               SplitLines(input)[i] != [] && |SplitLines(input)[i]| <= maxChars
    ensures Join("\n", Chunks(input, maxChars)) == Join("\n", SplitLines(input))
  {
    PackReconstructs(SplitLines(input), maxChars);
    NonEmptyKeepsAll(Pack(SplitLines(input), maxChars));
  }

  // ---------------------------------------------------------------------
  // Non-positive limits, as written
  //
  // `config.max_chars` is read from the command line or the environment
  // with no check that it is positive. The functions below follow the for
  // loop for any integer limit; `None` stands for a run that never ends.

  /** `start_index` after `turns` turns of the slicing loop: each turn moves
      it to `start_index + max_chars`. */
  function StartAfter(turns: nat, maxChars: int): (r: int)
    ensures maxChars <= 0 ==> r <= 0
  {
    if turns == 0 then 0 else StartAfter(turns - 1, maxChars) + maxChars
  }

  /** With `max_chars <= 0` the slicing loop never advances: on a non-empty
      line its guard `start_index < len(line)` still holds after any number
      of turns, so the loop does not end. */
  lemma {:induction false} SlicingNeverEnds(line: string, maxChars: int, turns: nat)
    requires maxChars <= 0 && line != []
    ensures StartAfter(turns, maxChars) < |line|
    ensures turns > 0 ==> StartAfter(turns, maxChars) <= StartAfter(turns - 1, maxChars)
  {
    if turns > 0 {
      SlicingNeverEnds(line, maxChars, turns - 1);
    }
  }

  /** One iteration of the for loop for any limit: `None` when the line
      enters a slicing loop that never ends. A limit of at most 0 sends a
      line there when the current chunk is not empty and the line is longer
      than the limit; an empty line then leaves at once, as the guard fails. */
  function PlaceAsWritten(chunks: seq<string>, line: string, maxChars: int): (r: Option<seq<string>>)
    requires chunks != []
    ensures r.Some? ==> |r.value| >= |chunks|
  {
    var cur := chunks[|chunks| - 1];
    if |cur| == 0 || |cur| + |line| + 1 <= maxChars then
      Some(chunks[..|chunks| - 1] + [cur + (if |cur| > 0 then "\n" else "") + line])
    else if |line| <= maxChars then Some(chunks + [line])
    else if maxChars > 0 then Some(chunks + Slices(line, maxChars))
    else if line == [] then Some(chunks)
    else None
  }

  /** `compressed_lines` after the for loop, for any limit. */
  function PackAsWritten(lines: seq<string>, maxChars: int): (r: Option<seq<string>>)
    ensures r.Some? ==> r.value != []
    decreases |lines|
  {
    if lines == [] then Some([""])
    else match PackAsWritten(lines[..|lines| - 1], maxChars)
      case None => None
      case Some(chunks) => PlaceAsWritten(chunks, lines[|lines| - 1], maxChars)
  }

  /** `chunk_stdin` for any limit: `None` when it never returns. */
  function ChunksAsWritten(input: string, maxChars: int): (r: Option<seq<string>>)
    ensures r.Some? ==> forall c | c in r.value :: c != []
  {
    if input == [] then Some([])
    else if |input| <= maxChars then Some([input])
    else match PackAsWritten(SplitLines(input), maxChars)
      case None => None
      case Some(chunks) =>
        NonEmptyIn(chunks);
        Some(NonEmpty(chunks))
  }

  /** For a positive limit the for loop as written always ends, with the
      chunks of `Chunks`. */
  lemma {:induction false} PackAsWrittenPositive(lines: seq<string>, maxChars: int)
    requires maxChars > 0
    ensures PackAsWritten(lines, maxChars) == Some(Pack(lines, maxChars))
    decreases |lines|
  {
    if lines != [] {
      PackAsWrittenPositive(lines[..|lines| - 1], maxChars);
    }
  }

  lemma ChunksAsWrittenPositive(input: string, maxChars: int)
    requires maxChars > 0
    ensures ChunksAsWritten(input, maxChars) == Some(Chunks(input, maxChars))
  {
    if input != [] && |input| > maxChars {
      PackAsWrittenPositive(SplitLines(input), maxChars);
    }
  }

  /** Two neighbouring lines that are both non-empty. */
  ghost predicate AdjacentNonEmpty(lines: seq<string>) {
    exists i | 1 <= i < |lines| :: lines[i - 1] != [] && lines[i] != []
  }

  lemma AdjacentSnoc(p: seq<string>, line: string)
    ensures AdjacentNonEmpty(p + [line])
            <==> AdjacentNonEmpty(p) || (p != [] && p[|p| - 1] != [] && line != [])
  {
    var q := p + [line];
    if AdjacentNonEmpty(q) && !(p != [] && p[|p| - 1] != [] && line != []) {
      var i :| 1 <= i < |q| && q[i - 1] != [] && q[i] != [];
      assert i < |p| && p[i - 1] == q[i - 1] && p[i] == q[i];
    }
    if AdjacentNonEmpty(p) {
      var i :| 1 <= i < |p| && p[i - 1] != [] && p[i] != [];
      assert q[i - 1] == p[i - 1] && q[i] == p[i];
    }
    if p != [] && p[|p| - 1] != [] && line != [] {
      assert q[|p| - 1] == p[|p| - 1] && q[|p|] == line;
    }
  }

  /** With a limit of 0 the for loop hangs exactly when two neighbouring
      lines are both non-empty; otherwise the current chunk is non-empty
      exactly when the last line is. */
  lemma {:induction false} PackZeroLimit(lines: seq<string>)
    ensures PackAsWritten(lines, 0).None? <==> AdjacentNonEmpty(lines)
    ensures PackAsWritten(lines, 0).Some? ==>
              var c := PackAsWritten(lines, 0).value;
              (c[|c| - 1] != []) <==> (lines != [] && lines[|lines| - 1] != [])
    decreases |lines|
  {
    if lines != [] {
      var p := lines[..|lines| - 1];
      var line := lines[|lines| - 1];
      assert lines == p + [line];
      PackZeroLimit(p);
      AdjacentSnoc(p, line);
    }
  }

  /** With a limit of 0, `chunk_stdin` never returns exactly when two
      neighbouring lines of the input are both non-empty. */
  lemma ZeroLimitHangsIff(input: string)
    ensures ChunksAsWritten(input, 0).None? <==> AdjacentNonEmpty(SplitLines(input))
  {
    PackZeroLimit(SplitLines(input));
    if input == [] {
      assert SplitLines(input) == [];
    }
  }

  /** With a negative limit the for loop hangs exactly when a second
      non-empty line arrives; otherwise the current chunk is non-empty
      exactly when some line is. */
  lemma {:induction false} PackNegativeLimit(lines: seq<string>, maxChars: int)
    requires maxChars < 0
    ensures PackAsWritten(lines, maxChars).None? <==> |NonEmpty(lines)| >= 2
    ensures PackAsWritten(lines, maxChars).Some? ==>
              var c := PackAsWritten(lines, maxChars).value;
              (c[|c| - 1] != []) <==> |NonEmpty(lines)| == 1
    decreases |lines|
  {
    if lines != [] {
      var p := lines[..|lines| - 1];
      var line := lines[|lines| - 1];
      assert lines == p + [line];
      PackNegativeLimit(p, maxChars);
      NonEmptyAppend(p, [line]);
      assert NonEmpty([line]) == if line == [] then [] else [line];
    }
  }

  /** With a negative limit, `chunk_stdin` never returns exactly when the
      input has at least two non-empty lines. */
  lemma NegativeLimitHangsIff(input: string, maxChars: int)
    requires maxChars < 0
    ensures ChunksAsWritten(input, maxChars).None? <==> |NonEmpty(SplitLines(input))| >= 2
  {
    PackNegativeLimit(SplitLines(input), maxChars);
    if input == [] {
      assert SplitLines(input) == [];
    }
  }

  /** With a limit of 0, the lines "a", "", "b" pack into ["a", "b"] (the
      empty line opens an empty chunk, which "b" then fills), while "a", "b"
      never return. */
  lemma ZeroLimitExamples()
    ensures PackAsWritten(["a", "", "b"], 0) == Some(["a", "b"])
    ensures PackAsWritten(["a", "b"], 0).None?
  {
    var l3: seq<string> := ["a", "", "b"];
    var l2: seq<string> := ["a", "b"];
    assert l3[..2] == ["a", ""] && l3[..2][..1] == ["a"] && l3[..2][..1][..0] == [];
    assert l2[..1] == ["a"];
    assert PackAsWritten([], 0) == Some([""]);
    assert PackAsWritten(["a"], 0) == Some(["a"]) by {
      assert "" + "" + "a" == "a";
      assert [""][..0] + ["" + "" + "a"] == ["a"];
      assert PlaceAsWritten([""], "a", 0) == Some(["a"]);
    }
    assert PackAsWritten(["a", ""], 0) == Some(["a", ""]) by {
      assert ["a"] + [""] == ["a", ""];
      assert PlaceAsWritten(["a"], "", 0) == Some(["a", ""]);
    }
    assert PlaceAsWritten(["a", ""], "b", 0) == Some(["a", "b"]) by {
      assert "" + "" + "b" == "b";
      assert ["a", ""][..1] + ["" + "" + "b"] == ["a", "b"];
    }
    assert PlaceAsWritten(["a"], "b", 0) == None;
  }
}
