# tulp, modelled in Dafny

tulp turns a chat model into a Unix filter. It reads stdin, cuts the input into
chunks, and sends each chunk with the user's request to the model. The model
answers in a tag grammar:
- `<|||reply_start|||>` … `<|||reply_end|||>` bracket the whole reply;
- `<|||dev_file_start=NAME|||>` … `<|||dev_file_end|||>` bracket one block.

tulp parses the reply and asks the model to continue while the reply is
unfinished. It gathers the `stdout` blocks, strips a wrapping code fence, and
prints the result or writes it to a file, moving an existing file to a
`.backup-N` name first. In execution mode it instead asks for a Python program,
runs it on stdin, and feeds the error back to the model for a bounded number of
repairs.

This project models that core, one Dafny module per source file:

| module | source | form |
|---|---|---|
| `Text` | (shared) | `str.strip`, `split`, `splitlines`, `join`, `str(n)` as functions with lemmas |
| `ResponseParser` | tulp/response_parser.py | the line loop as a method proved against a step function; the block queries as predicates |
| `InputHandler` | tulp/input_handler.py | `chunk_stdin` as a method (for loop and inner slicing loop) proved against a packing function |
| `Files` | (the `os` calls) | a `FileSystem` class over `map<string, Entry>`, with `makedirs`, `rename` and write as methods; `splitext`, `abspath`, `dirname` and backup names as functions |
| `OutputHandler` | tulp/output_handler.py | the fence-stripping regex as a hand-written matcher; `_find_backup_path` and `write_to_file` as methods on the filesystem |
| `Messages` | the merge loop of the adapters | the same-role merge loop shared by the three adapters, as a method proved against a runs-based specification |
| `Anthropic`, `Gemini`, `Ollama` | tulp/llms/*.py | each adapter's role mapping, conversion, empty-history check and finish-reason mapping |
| `Core` | tulp/core.py | `process_request`, with the chunk loop and the continuation loop as methods proved against recursive functions |
| `Executor` | tulp/executor.py | `handle_execution_request`, with the repair loop as a method proved against a recursive function |
| `LegacyTulp` | tulp/tulp.py | the older `(#name)` grammar parser, its fence cleaner and its chunker, kept apart from the live grammar |
| `LegacyWriter` | tulp/TulpOutputFileWriter.py | the older backup writer |

The model client is a function from the history it is sent to a reply or an
exception (`Core.Client`). The prompt factory is a function of the request and
the chunk. The Python runner is a function of the program and its stdin. The
filesystem is a `FileSystem` object, and the text printed on stdout and stderr
is returned as strings.

## Model

| member | source | states |
|---|---|---|
| Text.Strip | tulp/response_parser.py:26 | `str.strip()`: the result has no whitespace at either end and is no longer than the input |
| Text.TrimLeft | tulp/response_parser.py:26 | `lstrip`: only whitespace is removed, and the result does not start with whitespace |
| Text.TrimLeftSuffix | tulp/response_parser.py:26 | what `lstrip` keeps is a suffix of its input |
| Text.TrimRight | tulp/response_parser.py:26 | `rstrip`: the result is a prefix of the input, only whitespace is removed, and it does not end with whitespace |
| Text.StrippedIsFixpoint | tulp/output_handler.py:20 | a string with no whitespace at its ends is its own strip |
| Text.StripIdempotent | tulp/output_handler.py:20 | stripping twice is stripping once |
| Text.StripEmptyIff | tulp/tulp.py:39 | a string strips to "" exactly when it is all whitespace |
| Text.SplitOn | tulp/tulp.py:52 | `s.split(sep)`: at least one piece, and no piece contains the separator |
| Text.SplitOnFree | tulp/tulp.py:52 | a string without the separator splits into itself alone |
| Text.SplitOnAt | tulp/tulp.py:52 | a separator-free piece, then the separator, is split off first |
| Text.SplitOnJoin | tulp/tulp.py:52 | splitting a join of separator-free pieces gives the pieces back |
| Text.JoinSplitOn | tulp/tulp.py:52 | joining the pieces of a split with the same separator gives the text back |
| Text.SplitLines | tulp/response_parser.py:26 | `splitlines()`: "" exactly gives no lines, and no line holds a line feed |
| Text.JoinSplitLines | tulp/input_handler.py:59 | joining the lines with line feeds gives the text back, less one trailing line feed |
| Text.NonEmpty | tulp/input_handler.py:90 | `[x for x in xs if x]`: no longer than the input, and no element is empty |
| Text.NonEmptyKeepsAll | tulp/input_handler.py:90 | when no string is empty, the filter keeps them all |
| Text.NonEmptyIn | tulp/input_handler.py:90 | every kept string is one of the inputs |
| Text.NonEmptyAppend | tulp/input_handler.py:90 | filtering distributes over concatenation |
| Text.ConcatNonEmpty | tulp/core.py:180 | dropping empty strings does not change their concatenation |
| Text.JoinEmptyIff | tulp/llms/LlmAnthropic.py:105-109 | joining non-empty strings gives "" only for no strings |
| Text.JoinConcat | tulp/llms/LlmAnthropic.py:80-109 | joining a concatenation is joining the two joins, leaving out an empty side |
| Text.JoinAppend | tulp/core.py:108 | joining one more string appends the separator and the string |
| Text.ConcatConcat | tulp/core.py:180 | `"".join` distributes over list concatenation |
| Text.ConcatAppend | tulp/core.py:180 | `"".join` of one more string appends that string |
| Text.DigitChar | tulp/output_handler.py:125 | a digit below 10 is written as a character between '0' and '9' |
| Text.NatToString | tulp/output_handler.py:125 | `str(n)` is a non-empty string of decimal digits |
| Text.ParseNatToString | tulp/output_handler.py:125 | reading the decimal form of `n` back gives `n` |
| Text.NatToStringInjective | tulp/output_handler.py:125 | distinct counters have distinct decimal forms |
| ResponseParser.TagsDiffer | tulp/constants.py:11-12 | the reply-start and reply-end tags are different lines |
| ResponseParser.StartTagNameMatches | tulp/response_parser.py:9 | what the start-tag matcher captures is a non-empty word whose start tag is the line itself |
| ResponseParser.StartTagRecognised | tulp/response_parser.py:9 | every non-empty word is recognised in its own start tag |
| ResponseParser.ValidNamesAreWords | tulp/constants.py:44-51 | each of the six reserved names is recognised in its start tag |
| ResponseParser.ParseResponse | tulp/response_parser.py:11-121 | the for loop over the lines computes the parse function, and the end flag is always a key |
| ResponseParser.ParseBody | tulp/response_parser.py:52-109 | the loop over the lines between the brackets, then the closing of a still-open block, equal the step function run over them |
| ResponseParser.ParseLine | tulp/response_parser.py:57-102 | one loop iteration updates the stored blocks, the open block and its lines exactly as the step function does |
| ResponseParser.HasReplyEnd | tulp/response_parser.py:126-129 | `has_reply_end`: the end flag is stored and equals "True" |
| ResponseParser.BlockExists | tulp/response_parser.py:131-134 | `block_exists`: the name is a key and is not the end flag's key |
| ResponseParser.BlockContent | tulp/response_parser.py:136-145 | `block_content` is "" for the end flag and for a missing block, and the stored text otherwise |
| ResponseParser.BlockIsNotEmpty | tulp/response_parser.py:147-157 | `block_is_not_empty` holds exactly when the block exists and its content is not "" |
| ResponseParser.ReplyEndNotABlockName | tulp/constants.py:44-51 | the end flag's key is not a block name, so it is never treated as a block |
| ResponseParser.StepWellFormed | tulp/response_parser.py:57-102 | one line keeps the parser invariant: the open block is a reserved name, and every key is a reserved name or the end flag |
| ResponseParser.RunWellFormed | tulp/response_parser.py:56-102 | the whole loop keeps that invariant, and the end flag already stored stays unchanged |
| ResponseParser.KeysOfParse | tulp/response_parser.py:72-80 | only reserved names become keys, beside the end flag, which is always present |
| ResponseParser.MissingStartTag | tulp/response_parser.py:26-33 | blank text, or text whose first stripped line is not the reply-start tag, parses to the end flag "False" alone: no reply end and no block |
| ResponseParser.EndFlagOfParse | tulp/response_parser.py:37-49 | the end flag is "True" exactly for lines that start with the start tag and end with the end tag, and "False" otherwise |
| ResponseParser.ReplyEndIff | tulp/response_parser.py:126-129 | `has_reply_end` holds exactly when the first line is the start tag and the last line is the end tag (two distinct lines) |
| ResponseParser.BracketsNotContent | tulp/response_parser.py:37-49 | neither bracketing line is parsed as content: a terminated reply parses as its inner lines alone |
| ResponseParser.RunAppend | tulp/response_parser.py:56-102 | the loop over a concatenation is the loop over the second part, started where the first left off |
| ResponseParser.IgnoredLine | tulp/response_parser.py:92-101 | a content line or a stray end tag, met with no block open, leaves the result unchanged |
| ResponseParser.OpenBlockCollects | tulp/response_parser.py:72-76 | after a valid start tag, the content lines that follow are collected in order, and the previously open block is stored |
| ResponseParser.UnknownBlockIgnored | tulp/response_parser.py:77-80 | a start tag with an unknown name closes the open block, and the lines after it are discarded until the next start tag |
| ResponseParser.BlockClosedValue | tulp/response_parser.py:61-69 | a block's stored value is its lines joined by "\n" and stripped, whether a tag line or the end of input closes it |
| ResponseParser.StepKeepsBlock | tulp/response_parser.py:56-102 | a line that does not re-open a stored, closed block keeps its value |
| ResponseParser.LaterLinesKeepBlock | tulp/response_parser.py:82-91 | lines that never re-open a block keep its stored value to the end, closing included |
| ResponseParser.BlockSurvives | tulp/response_parser.py:106-109 | from any state, a valid block followed by lines that never re-open it ends up stored with its joined, stripped text |
| ResponseParser.LastOccurrenceWins | tulp/response_parser.py:66 | a block name that occurs more than once keeps the content of its last occurrence |
| InputHandler.Chunks | tulp/input_handler.py:26-96 | `chunk_stdin` for a positive limit: [] for empty input, the input alone when it fits, else the non-empty chunks of the packed lines |
| InputHandler.Drop | tulp/input_handler.py:84 | `s[k:]`, clamped like Python's slice: empty once `k` is past the end |
| InputHandler.Pack | tulp/input_handler.py:61-86 | the list `compressed_lines` after the for loop is never empty |
| InputHandler.AppendSlices | tulp/input_handler.py:81-86 | the slicing while loop appends exactly the slices of the line |
| InputHandler.ChunkStdin | tulp/input_handler.py:26-96 | `chunk_stdin`: the for loop computes the chunking function |
| InputHandler.SlicesStep | tulp/input_handler.py:82-86 | one turn of the slicing loop takes `max_chars` characters off the remaining suffix |
| InputHandler.SlicesCover | tulp/input_handler.py:78-86 | the slices are non-empty, all but the last have exactly `max_chars` characters, none has more, and together they are the line |
| InputHandler.PlaceBound | tulp/input_handler.py:65-86 | placing one more input line keeps every chunk within `max_chars` or equal to a whole input line |
| InputHandler.FitOrLineWiden | tulp/input_handler.py:61 | that invariant survives adding lines to the input |
| InputHandler.PackBound | tulp/input_handler.py:69-86 | a chunk longer than `max_chars` is always a whole input line, the one put into an empty current chunk |
| InputHandler.ChunksBound | tulp/input_handler.py:69-90 | no returned chunk is empty, and each is within `max_chars` or is a whole line of the input |
| InputHandler.ChunksShortInput | tulp/input_handler.py:31-39 | empty input gives no chunk; non-empty input within `max_chars` gives itself as the only chunk |
| InputHandler.LongFirstLineNotSliced | tulp/input_handler.py:69-72 | an over-long line put into an empty current chunk is not sliced: with a limit of 1, "ab\nc" gives ["ab", "c"] |
| InputHandler.JoinReplaceLast | tulp/input_handler.py:71-72 | adding a line after a separator to the current chunk extends the line-feed join by that line |
| InputHandler.PackReconstructs | tulp/input_handler.py:59-77 | packing non-empty lines, each within the limit, loses nothing: the chunks joined by "\n" are the lines joined by "\n", and no chunk is empty |
| InputHandler.ChunksReconstruct | tulp/input_handler.py:59-90 | for input longer than the limit with no empty or over-long line, "\n".join(chunks) == "\n".join(input.splitlines()) |
| InputHandler.StartAfter | tulp/input_handler.py:80-86 | `start_index` after a number of turns of the slicing loop, never positive when `max_chars <= 0` |
| InputHandler.SlicingNeverEnds | tulp/input_handler.py:80-86 | with `max_chars <= 0` and a non-empty line, the slicing loop's guard holds after every number of turns and `start_index` never grows: the loop does not end |
| InputHandler.PlaceAsWritten | tulp/input_handler.py:61-86 | one for-loop iteration for any integer limit: a result of the same length or longer, or none when the line enters a slicing loop that never ends |
| InputHandler.PackAsWritten | tulp/input_handler.py:57-86 | `compressed_lines` after the for loop for any limit, never empty when the loop ends |
| InputHandler.ChunksAsWritten | tulp/input_handler.py:26-96 | `chunk_stdin` for any limit: when it returns, no chunk is empty |
| InputHandler.PackAsWrittenPositive | tulp/input_handler.py:57-86 | with a positive limit the for loop as written always ends, with the packed chunks |
| InputHandler.ChunksAsWrittenPositive | tulp/input_handler.py:26-96 | with a positive limit `chunk_stdin` as written always returns, and returns the chunks of `Chunks` |
| InputHandler.PackZeroLimit | tulp/input_handler.py:61-86 | with a limit of 0 the for loop hangs exactly when two neighbouring lines are both non-empty; otherwise the current chunk is non-empty exactly when the last line is |
| InputHandler.ZeroLimitHangsIff | tulp/input_handler.py:26-96 | with a limit of 0, `chunk_stdin` never returns exactly when two neighbouring lines of the input are both non-empty |
| InputHandler.PackNegativeLimit | tulp/input_handler.py:61-86 | with a negative limit the for loop hangs exactly when the lines hold two non-empty ones; otherwise the current chunk is non-empty exactly when one line is |
| InputHandler.NegativeLimitHangsIff | tulp/input_handler.py:26-96 | with a negative limit, `chunk_stdin` never returns exactly when the input has at least two non-empty lines |
| InputHandler.ZeroLimitExamples | tulp/input_handler.py:61-86 | with a limit of 0, the lines "a", "", "b" pack into ["a", "b"], while "a", "b" never return |
| Files.FileSystem.MakeDirs | tulp/output_handler.py:89-91 | `os.makedirs(path, exist_ok=True)` succeeds exactly when no directory on the way is a file, and then adds the missing directories; a failure changes nothing |
| Files.FileSystem.Rename | tulp/output_handler.py:100 | `os.rename` onto a free name moves the entry and changes nothing else |
| Files.FileSystem.WriteFile | tulp/output_handler.py:104-105 | opening for writing and writing sets the path to a file with the content, and changes nothing else |
| Files.MadeDirs | tulp/output_handler.py:89-91 | the filesystem after `makedirs`: every old entry kept, the needed directories added |
| Files.LastIndex | tulp/output_handler.py:120 | the last occurrence of a character, or -1 when there is none |
| Files.SplitExt | tulp/output_handler.py:120 | `os.path.splitext`: root and extension put together are the path, and the extension is empty or a dot followed by neither a dot nor a separator |
| Files.ExtensionChars | tulp/output_handler.py:120 | a last dot after the last separator starts an extension |
| Files.BackupPath | tulp/output_handler.py:125 | `{root}.backup-{n}{ext}` is longer than the original path |
| Files.BackupPathInjective | tulp/output_handler.py:122-127 | distinct counters give distinct backup names |
| Files.BackupIsNotOriginal | tulp/output_handler.py:125 | a backup name never names the original itself |
| Files.LeastFreeBackupUnique | tulp/output_handler.py:122-127 | the first free backup name is unique |
| Files.LeastFreeBackupIs | tulp/output_handler.py:122-127 | when names 1 to n-1 are taken and name n is free, the first free name is name n |
| Files.JoinPath | tulp/output_handler.py:84 | `os.path.join(cwd, path)` for a relative path: the result ends with the path |
| Files.LeadingSlashes | tulp/output_handler.py:84 | the separators `normpath` keeps at the start: at most two, all separators, and none exactly for a relative path |
| Files.NormPath | tulp/output_handler.py:84 | `posixpath.normpath`: never empty ("." for nothing left) |
| Files.PushComponentsGood | tulp/output_handler.py:84 | the components `normpath` keeps are non-empty, not ".", separator-free and, under the root, not ".." |
| Files.PushComponentsKeep | tulp/output_handler.py:84 | components that are already normal under the root are all kept, in order |
| Files.JoinComponentsShape | tulp/output_handler.py:84 | such components joined by "/" neither start nor end with a separator and hold no two in a row |
| Files.PrefixedJoinShape | tulp/output_handler.py:84 | with at most two leading separators in front, a trailing separator means the string is only separators |
| Files.NormPathSeparators | tulp/output_handler.py:84 | the normal form ends with a separator only when it is "/" or "//", never holds two separators in a row past the first, and starts with one exactly when the input does |
| Files.NormPathComponents | tulp/output_handler.py:84 | the normal form's components after its leading separators are non-empty, not "." and, under the root, not ".." |
| Files.NormPathShape | tulp/output_handler.py:84 | the two lemmas above together: what `normpath` returns is in normal form |
| Files.NormPathIdempotent | tulp/output_handler.py:84 | normalising an absolute path twice is normalising it once |
| Files.AbsPath | tulp/output_handler.py:84 | `os.path.abspath`: an absolute path is normalised; a relative one is joined to the working directory, then normalised |
| Files.AbsPathNormal | tulp/output_handler.py:84 | with an absolute working directory the result is absolute, and taking it again changes nothing |
| Files.AbsPathExample | tulp/output_handler.py:84 | "/c/out/" becomes "/c/out": the trailing separator is dropped |
| Files.TrimSlashes | tulp/output_handler.py:89 | `rstrip('/')`: a prefix of the input that does not end with a separator |
| Files.DirName | tulp/output_handler.py:89 | `os.path.dirname`: "" for a path without a separator |
| OutputHandler.LetterRun | tulp/output_handler.py:11 | `[a-zA-Z]*`: the run of letters from a position is maximal |
| OutputHandler.OpeningEnd | tulp/output_handler.py:11 | the content starts after "```", a run of letters and a line feed, and only when the text starts with a fence |
| OutputHandler.FirstClose | tulp/output_handler.py:11 | the lazy `(.*?)`: the first position where `\n```\s*$` matches, or none at all |
| OutputHandler.CleanupOutput | tulp/output_handler.py:13-31 | `cleanup_output` always returns a stripped string, no longer than its input |
| OutputHandler.CleanupUnfenced | tulp/output_handler.py:29-31 | text whose stripped form does not start with a fence is only stripped |
| OutputHandler.RestOfLineBlankShift | tulp/output_handler.py:11 | `\s*$` in multi-line mode does not depend on the text before the position |
| OutputHandler.FirstCloseIs | tulp/output_handler.py:11 | the first closing fence wins |
| OutputHandler.FencedOpening | tulp/output_handler.py:11 | an opening line "```lang" is recognised, and the content starts on the next line |
| OutputHandler.FencedClosing | tulp/output_handler.py:11 | a line "```" followed by blanks only, after backtick-free content, is the first close |
| OutputHandler.CleanupAt | tulp/output_handler.py:23-28 | a stripped text with an opening fence line and a first close gives the stripped text between them |
| OutputHandler.CleanupFenced | tulp/output_handler.py:23-28 | "```lang\nX\n```" followed by blanks cleans to X stripped, whatever follows on later lines being dropped |
| OutputHandler.LetterRunIs | tulp/output_handler.py:11 | a run of n letters followed by a non-letter has length n |
| OutputHandler.CleanupExample | tulp/output_handler.py:11-28 | `cleanup_output("```\nX\n```") == "X"` |
| OutputHandler.EmittedStdout | tulp/output_handler.py:36-53 | `print_stdout` emits nothing for empty cleaned content, and otherwise the cleaned content and a line feed (cleaned content never ends with one) |
| OutputHandler.FindBackupPath | tulp/output_handler.py:118-127 | `_find_backup_path` returns `{root}.backup-{n}{ext}` for the least n >= 1 whose path does not exist, and its loop ends |
| OutputHandler.WriteEffect | tulp/output_handler.py:84-112 | `write_to_file` on an absolute path: a blocked parent fails and changes nothing; a directory at the path fails after the parents are made; an existing file moves to its first free backup name before the write; a new path is written directly |
| OutputHandler.WriteToFile | tulp/output_handler.py:69-116 | an empty path returns (False, "No file path specified.") and changes nothing; any other path has the effect of the write predicate on its absolute path |
| OutputHandler.LeastFreeIsFree | tulp/output_handler.py:126-127 | the chosen backup name was free |
| OutputHandler.RenameThenWrite | tulp/output_handler.py:99-105 | renaming the file to a free name and then writing is the backed-up write |
| OutputHandler.WriteEffectBlocked | tulp/output_handler.py:89-91 | a parent that cannot be created gives (False, the OS error message) and changes nothing |
| OutputHandler.WriteEffectIsDir | tulp/output_handler.py:94-98 | a directory at the path gives (False, the directory message) and leaves the file entries alone |
| OutputHandler.WriteEffectBackup | tulp/output_handler.py:94-107 | an existing file moves to the first free backup name, the content lands at the path, and the result is (True, absolute path) |
| OutputHandler.WriteEffectNew | tulp/output_handler.py:103-107 | a new path is written directly and the result is (True, absolute path) |
| OutputHandler.BackedUpWriteFrame | tulp/output_handler.py:99-107 | a backed-up write adds only the backup name, which was free; the old content is at the backup and the new one at the path; every other path, older backups included, is unchanged |
| OutputHandler.DirsOfShorter | tulp/output_handler.py:89-91 | every directory `makedirs` creates for a path is no longer than that path |
| OutputHandler.PreparedKeepsFile | tulp/output_handler.py:89-91 | making the parent of an existing file keeps that file, and every free backup name stays free |
| OutputHandler.PreparedAgain | tulp/output_handler.py:89-91 | after a backed-up write, making the parent again cannot fail and changes nothing |
| OutputHandler.WriteOverFile | tulp/output_handler.py:88-107 | one `write_to_file` over an existing file whose parent can be made succeeds, and the file moves to its least free backup name |
| OutputHandler.TrailingSeparatorWrite | tulp/output_handler.py:84-107 | writing to "/c/out/" on an empty filesystem returns (True, "/c/out"), makes the directory "/c" and writes the file "/c/out", and nothing else |
| OutputHandler.TwoWritesBackups | tulp/output_handler.py:88-107 | two successive `write_to_file` calls on an existing f.ext whose parent can be made and whose first two backup names are free both succeed: the original ends at f.backup-1.ext, the first content at f.backup-2.ext, the second content at f.ext |
| Messages.Contents | tulp/llms/LlmAnthropic.py:80-83 | the contents of a history, one per message, in order |
| Messages.MapRoles | tulp/llms/LlmAnthropic.py:85 | each message keeps its content and has its role mapped |
| Messages.Runs | tulp/llms/LlmAnthropic.py:87-103 | the history cut into same-role runs: no more runs than messages, and none exactly for an empty history |
| Messages.RunsMaximal | tulp/llms/LlmAnthropic.py:87-103 | the runs are maximal: none is empty, neighbouring runs differ in role, and the last has the last message's role |
| Messages.FlushRun | tulp/llms/LlmAnthropic.py:94-99 | a finished run gives at most one message |
| Messages.Flush | tulp/llms/LlmAnthropic.py:94-109 | flushing the runs gives at most one message per run, none with empty content |
| Messages.Merged | tulp/llms/LlmAnthropic.py:80-109 | the merged history: one message per same-role run whose joined text is not empty; no more messages than the input, none with empty content |
| Messages.MergeConsecutive | tulp/llms/LlmAnthropic.py:80-109 | the adapters' merge loop computes the merge of the role-mapped history, with no empty content and no more messages than it was given |
| Messages.MergeMessage | tulp/llms/LlmAnthropic.py:87-103 | one turn of the loop keeps the loop's relation to the runs of the history seen so far |
| Messages.FlushInto | tulp/llms/LlmAnthropic.py:94-99 | the flush of a run, as the loop writes it, appends the run's message when its text is not empty |
| Messages.RunsStep | tulp/llms/LlmAnthropic.py:87-103 | the runs of one more message extend the runs so far |
| Messages.ExtendSameRole | tulp/llms/LlmAnthropic.py:90-91 | a message of the open run's role joins it |
| Messages.ExtendOtherRole | tulp/llms/LlmAnthropic.py:92-103 | a message of another role opens a new run |
| Messages.FlushSnoc | tulp/llms/LlmAnthropic.py:105-109 | flushing one more run appends its message |
| Messages.FlattenExtend | tulp/llms/LlmAnthropic.py:87-103 | one more message adds its content at the end of the runs' contents |
| Messages.FlattenRuns | tulp/llms/LlmAnthropic.py:87-103 | cutting into runs loses and reorders nothing |
| Messages.ContentsAppend | tulp/llms/LlmAnthropic.py:80-83 | the contents of a concatenation are the concatenated contents |
| Messages.AppendedText | tulp/llms/LlmGemini.py:136-140 | one more message adds "\n" and its content to the joined text |
| Messages.FlushRunText | tulp/llms/LlmAnthropic.py:95-98 | a flushed run carries exactly its joined non-empty parts |
| Messages.FlushText | tulp/llms/LlmAnthropic.py:94-109 | the flushed messages, joined, are the runs' non-empty contents, joined |
| Messages.MergedText | tulp/llms/LlmAnthropic.py:80-109 | merging keeps every non-empty content in order: joining the merged contents gives the joined non-empty input contents |
| Messages.MergedEmptyIff | tulp/llms/LlmAnthropic.py:105-109 | the merged history is empty exactly when every content is empty |
| Messages.RunsRoles | tulp/llms/LlmAnthropic.py:85-103 | every run has a role from the history |
| Messages.FlushRoles | tulp/llms/LlmAnthropic.py:94-109 | flushing keeps roles within the runs' roles |
| Messages.MergedRoles | tulp/llms/LlmAnthropic.py:85-109 | merging invents no role |
| Messages.RunsFilled | tulp/llms/LlmAnthropic.py:87-103 | without empty contents, every part of every run is non-empty |
| Messages.FlushKeepsAll | tulp/llms/LlmAnthropic.py:94-109 | when no run has an empty text, flushing keeps every run, role by role |
| Messages.MergedAlternates | tulp/llms/LlmAnthropic.py:80-109 | without empty contents, the merged roles alternate and there is one message per run |
| Messages.DroppedRunJoinsNeighbours | tulp/llms/LlmAnthropic.py:96-99 | a run whose contents are all empty is dropped, and its same-role neighbours then follow each other |
| Anthropic.AnthropicRole | tulp/llms/LlmAnthropic.py:85 | "user" stays "user"; every other role becomes "assistant" |
| Anthropic.Body | tulp/llms/LlmAnthropic.py:68-75 | the messages after a leading system message, which is taken out |
| Anthropic.SystemPrompt | tulp/llms/LlmAnthropic.py:68-75 | the system prompt exists exactly when the first message is a system message, and is its content |
| Anthropic.ConvertMessages | tulp/llms/LlmAnthropic.py:55-118 | `_convert_messages` returns the conversion function's list and system prompt |
| Anthropic.ConvertedShape | tulp/llms/LlmAnthropic.py:64-65 | empty input gives ([], None); a non-empty result opens with a user message and holds only user and assistant messages, none empty |
| Anthropic.ConvertedEmptyIff | tulp/llms/LlmAnthropic.py:105-115 | the converted list is empty exactly when every message after a leading system message is empty |
| Anthropic.ConvertedText | tulp/llms/LlmAnthropic.py:111-115 | apart from a leading placeholder, the converted list carries exactly the non-empty contents, in order |
| Anthropic.Precheck | tulp/llms/LlmAnthropic.py:126-133 | a refusal is the error reply for an empty list, with role and finish reason "error" |
| Anthropic.PrecheckRefusesIff | tulp/llms/LlmAnthropic.py:126-133 | `generate` refuses exactly when nothing but a system prompt and empty messages was given |
| Anthropic.MapStopReason | tulp/llms/LlmAnthropic.py:162-166 | the mapped reason is never "end_turn" nor "max_tokens" |
| Anthropic.MapStopReasonProjection | tulp/llms/LlmAnthropic.py:162-166 | end_turn gives stop and max_tokens gives length; others pass through; mapping twice is mapping once |
| Gemini.GeminiRole | tulp/llms/LlmGemini.py:103-110 | "assistant" and "model" give "model"; every other role gives "user" |
| Gemini.ConvertMessages | tulp/llms/LlmGemini.py:86-143 | `_convert_messages` returns the merge followed, when it ends with the model, by a user "(Continue)" entry |
| Gemini.ConvertedShape | tulp/llms/LlmGemini.py:136-140 | a converted history holds only user and model entries, none empty, and never ends with the model |
| Gemini.ConvertedEmptyIff | tulp/llms/LlmGemini.py:130-134 | the converted history is empty exactly when every content is empty |
| Gemini.ConvertedText | tulp/llms/LlmGemini.py:112-140 | apart from a trailing "(Continue)", the converted history carries exactly the non-empty contents, in order |
| Gemini.SplitSystem | tulp/llms/LlmGemini.py:150-156 | a leading system message becomes the system instruction and is taken out of the history; otherwise the history is unchanged |
| Gemini.Precheck | tulp/llms/LlmGemini.py:172-174 | a refusal is the error reply for an empty history |
| Gemini.PrecheckRefusesIff | tulp/llms/LlmGemini.py:150-174 | `generate` refuses exactly when nothing but a system instruction and empty messages was given |
| Gemini.MapFinishReason | tulp/llms/LlmGemini.py:258-261 | the mapped reason is never "STOP" nor "MAX_TOKENS" |
| Gemini.MapFinishReasonProjection | tulp/llms/LlmGemini.py:258-261 | STOP gives stop and MAX_TOKENS gives length; others pass through; mapping twice is mapping once |
| Ollama.ModelName | tulp/llms/LlmOllama.py:68-77 | a leading "ollama." is stripped; other names are returned unchanged |
| Ollama.ModelNameOfPrefixed | tulp/llms/LlmOllama.py:71-74 | prefixing a name with "ollama." and taking the model name gives the name back |
| Ollama.OllamaRole | tulp/llms/LlmOllama.py:93-97 | system, user and assistant are kept; every other role becomes user |
| Ollama.ConvertMessages | tulp/llms/LlmOllama.py:79-121 | `_convert_messages` returns the merge of the role-mapped history |
| Ollama.ConvertedShape | tulp/llms/LlmOllama.py:99-118 | the converted list holds only system, user and assistant messages, none empty, and carries exactly the non-empty contents, in order |
| Ollama.Precheck | tulp/llms/LlmOllama.py:132-134 | a refusal is the error reply for an empty list |
| Ollama.PrecheckRefusesIff | tulp/llms/LlmOllama.py:130-134 | `generate` refuses exactly when every content is empty |
| Ollama.DoneReason | tulp/llms/LlmOllama.py:163-166 | the finish reason is "stop" exactly when the response is done, else "unknown" |
| Core.NeedsContinuation | tulp/core.py:76-82 | the loop condition: budget left, no reply end, no error block, and a finish reason other than "stop" and "error" |
| Core.Continue | tulp/core.py:84-122 | the continuation loop: while needed, send the history, the previous reply and the continuation request; an exception ends the chunk; an empty answer ends the loop; otherwise glue the answer on with a line feed |
| Core.RunChunk | tulp/core.py:63-122 | one chunk: the initial request, then the continuation loop from its reply |
| Core.ProcessChunk | tulp/core.py:42-123 | the initial request and the continuation while loop compute the chunk's conversation function, with the continuation text naming the chunk |
| Core.ContinueStop | tulp/core.py:84 | the loop ends at once when no continuation is needed |
| Core.ContinueStep | tulp/core.py:84-112 | one round sends the history, the previous reply and one continuation request; an empty answer ends the loop; otherwise the text grows by "\n" and the answer |
| Core.GrownByStep | tulp/core.py:89-94 | one round more appends the previous reply and the continuation request to the history |
| Core.GrownByZero | tulp/core.py:89-94 | no round leaves the history as it was |
| Core.ContinueBounds | tulp/core.py:84-122 | the loop asks at most `budget` more times, appends two messages per request (the second being the continuation request), and, unless an empty answer cut it short, stops only when no continuation is needed |
| Core.ChunkBounds | tulp/core.py:44-122 | per chunk, generate is called at most 1 + `continuation_retries` times; the initial messages are kept and each continuation adds the previous reply and one request |
| Core.NoContinuationWhenFinished | tulp/core.py:76-82 | a reply with the end tag, an error block (even an empty one), finish reason "stop" or "error", or no budget is never continued |
| Core.ChunkVerdict | tulp/core.py:130-164 | an exception fails; a non-empty error block fails; a passing chunk hands on its stdout and stderr blocks |
| Core.ChunkVerdictPassIff | tulp/core.py:130-146 | a chunk passes exactly when it has no non-empty error block and did not end unfinished with finish reason "error" before the budget was used up |
| Core.StdinChunks | tulp/core.py:30-31 | no stdin gives one `None` chunk; otherwise each chunk is kept, in order |
| Core.Verdicts | tulp/core.py:37-53 | each chunk's conversation starts afresh from its own prompt, so its verdict depends on no other chunk |
| Core.FirstFail | tulp/core.py:142-146 | the first failing chunk, with every earlier chunk passing, or none when every chunk passes |
| Core.StdoutBlocks | tulp/core.py:159-163 | each chunk's stdout block, in chunk order |
| Core.CollectChunks | tulp/core.py:37-176 | the chunk for loop stops at the first failing chunk with its error; otherwise it collects the non-empty stdout blocks in order and the last chunk's stderr block |
| Core.FirstFailAt | tulp/core.py:142-146 | a failing chunk after passing chunks is the first failure, and the run fails with its error |
| Core.AllGathered | tulp/core.py:150-164 | when every chunk passes, the collected parts and stderr are the gathered outcome |
| Core.GatherStep | tulp/core.py:159-163 | one more passing chunk appends its stdout block when it is not empty |
| Core.Delivered | tulp/core.py:179-208 | the final stage: on failure status 1 and only the error; otherwise the cleaned stdout printed, or written to the file with status 1 and the text printed after a failed write, and the last stderr block surfaced stripped |
| Core.Deliver | tulp/core.py:179-208 | on failure, status 1 and only the error on stderr; otherwise the stdout blocks joined and cleaned are printed, or written to the file (status 1 and printed after a failed write), and the last stderr block is surfaced stripped |
| Core.ProcessRequest | tulp/core.py:20-208 | `process_request` is the chunk loop followed by the final stage on what it collected |
| Core.GatheredStdout | tulp/core.py:159-181 | the aggregated stdout is the separator-free concatenation of every chunk's stdout block in order |
| Core.CollectFailsIff | tulp/core.py:142-174 | the run fails exactly when some chunk fails, and then with the error of the first one |
| Core.OnlyLastStderr | tulp/core.py:150-156 | the stderr blocks of chunks other than the last do not affect the outcome |
| Executor.ErrorOutput | tulp/executor.py:165 | the error text is the stripped stderr, or the stripped stdout when stderr is blank |
| Executor.SuccessOutput | tulp/executor.py:151-155 | a successful run prints its stdout with a line feed added when missing, and nothing for no output |
| Executor.FailureOutput | tulp/executor.py:170 | after the last failed run, any captured stdout is printed with a line feed |
| Executor.ProgramIn | tulp/executor.py:134-135 | the program run is `cleanup_output` of the stdout block, hence stripped |
| Executor.AttemptStep | tulp/executor.py:78-191 | one attempt: an exception returns 1; an empty reply returns 1 on the last attempt and otherwise asks for the program |
| Executor.ReplyStep | tulp/executor.py:100-184 | a parsed reply: a non-empty error block returns 1; a missing program returns 1 on the last attempt and is otherwise asked for; a program runs and returns on success or on the last attempt, else the error output is sent back |
| Executor.ReplyStepKeeps | tulp/executor.py:100-171 | after a parsed reply, a program runs exactly when there is no non-empty error block and the stdout block is not empty; a non-empty error block returns 1 without running anything |
| Executor.ReplyStepRequest | tulp/executor.py:117-184 | a retry after a failed run sends its error output; a retry without a program asks for it |
| Executor.AttemptStepKeeps | tulp/executor.py:78-191 | every attempt keeps the loop's guarantees; an exception returns 1; the last attempt always returns |
| Executor.AttemptStepRequest | tulp/executor.py:85-184 | the corrective request of a retry: the error output, or a request for the program after an empty reply or a reply without one |
| Executor.ExecFrom | tulp/executor.py:67-194 | the loop from an attempt number: past the last attempt status 1, otherwise one attempt and, on a retry, the loop again with the reply and the corrective request appended |
| Executor.Execute | tulp/executor.py:59-194 | the whole request: the prompt sees the first stdin chunk, the program reads all of them, and the loop starts at attempt 0 |
| Executor.ExecFromStep | tulp/executor.py:67-191 | the loop unfolds by one attempt |
| Executor.NextStep | tulp/executor.py:67-191 | the step the loop takes at one attempt keeps its guarantees |
| Executor.ProgramsKeepCons | tulp/executor.py:162-184 | a failed program in front keeps the programs' guarantees |
| Executor.EndKeepsCons | tulp/executor.py:162-184 | a failed program in front does not change how the run ends |
| Executor.ExecFromKeeps | tulp/executor.py:67-194 | started with attempts left, the loop always returns from inside its body after between one call and one call per attempt left, and keeps its guarantees |
| Executor.FinishKeeps | tulp/executor.py:149-171 | an attempt that returns ends a run that keeps the guarantees |
| Executor.RetryKeeps | tulp/executor.py:174-184 | a failed attempt followed by a run that keeps the guarantees keeps them |
| Executor.ExecuteKeeps | tulp/executor.py:59-194 | at most 5 generate calls; status 0 exactly when the last program exited with 0, and then its output is printed; every program but the last failed |
| Executor.ErrorBlockStops | tulp/executor.py:111-114 | a reply with a non-empty error block returns 1 with nothing printed and nothing run |
| Executor.FailedRunRetries | tulp/executor.py:162-184 | a failed program with attempts left is answered with the reply and its error output, and the loop goes on |
| Executor.MissingProgramRetries | tulp/executor.py:85-128 | an empty reply, or one without a program, with attempts left is answered with the reply and a request for the program, and the loop goes on |
| Executor.WrittenSnoc | tulp/executor.py:139-143 | one more write extends the writes made so far |
| Executor.WrittenAttempt | tulp/executor.py:139-143 | an attempt that wrote its program, if it ran one, extends the writes made so far |
| Executor.RunAttempt | tulp/executor.py:77-184 | one pass of the loop body agrees with the loop function, and writes the program to the output file when one is set |
| Executor.HandleExecutionRequest | tulp/executor.py:59-194 | the repair loop returns the status and printed text of the loop function, and the file holds the programs written in turn |
| LegacyTulp.CleanupOutput | tulp/tulp.py:22-31 | `cleanup_output`: with exactly two fence lines in the text, more than two stripped lines, a first line opening a fence and a bare last fence, the lines between them; the input itself otherwise |
| LegacyTulp.CountFenced | tulp/tulp.py:25-27 | the number of lines that start with a fence is at most the number of lines |
| LegacyTulp.CountFencedAppend | tulp/tulp.py:25-27 | counting fences distributes over concatenation |
| LegacyTulp.CountFencedNone | tulp/tulp.py:25-27 | lines that do not start with a fence count none |
| LegacyTulp.FencedLines | tulp/tulp.py:23 | a fenced block is already stripped, and its lines are the two fence lines around the body |
| LegacyTulp.FencedCount | tulp/tulp.py:27 | a fenced block with no fence in its body has exactly two fences |
| LegacyTulp.CleanupFencedBody | tulp/tulp.py:22-30 | wrapping lines in a fence and cleaning gives the lines back |
| LegacyTulp.CleanupUnwraps | tulp/tulp.py:27-30 | two fences, more than two lines, a fence first and a bare fence last: the middle lines joined by "\n" |
| LegacyTulp.CleanupNotTwoFences | tulp/tulp.py:27-31 | text whose fence count is not two comes back unchanged |
| LegacyTulp.CleanupKeepsWhitespace | tulp/tulp.py:31 | unfenced text is not even stripped: " x\n" comes back as it is |
| LegacyTulp.BlockExists | tulp/tulp.py:35-36 | `block_exists`: the name is a key |
| LegacyTulp.BlockIsNotEmpty | tulp/tulp.py:38-39 | `block_isnotempty`: the block exists and its stripped content is not empty |
| LegacyTulp.LineKey | tulp/tulp.py:52-56 | the first space-separated word of a line |
| LegacyTulp.LineKind | tulp/tulp.py:56-59 | the rest of the line joined by spaces, when it has more than two words |
| LegacyTulp.BlockIsNotEmptyIff | tulp/tulp.py:34-39 | `block_isnotempty` holds exactly when the block exists and holds a non-whitespace character |
| LegacyTulp.Step | tulp/tulp.py:51-84 | one line keeps the open block among the blocks |
| LegacyTulp.Run | tulp/tulp.py:45-85 | the parse so far keeps the open block among the blocks |
| LegacyTulp.ParseResponse | tulp/tulp.py:45-85 | `parse_response`: the for loop computes the parse function, exit status 2 included |
| LegacyTulp.AbortIff | tulp/tulp.py:71-84 | the parse aborts with status 2 exactly when the first line is not a block tag |
| LegacyTulp.StepEffect | tulp/tulp.py:60-70 | a tag line switches to its block, creating it with its type and no text only when new; a content line appends itself and "\n" to the open block and changes nothing else |
| LegacyTulp.LineKindOf | tulp/tulp.py:52-59 | a tag line's type is its remaining words when there are at least two of them, else none |
| LegacyTulp.Terminated | tulp/tulp.py:70 | lines each followed by a line feed are at least as long as there are lines |
| LegacyTulp.SingleBlock | tulp/tulp.py:60-70 | a tag line followed by lines that are not tags parses to that one block, holding each line followed by "\n" |
| LegacyTulp.Slice | tulp/tulp.py:129 | a slice of a long line is at most `max_chars` long |
| LegacyTulp.Slices | tulp/tulp.py:128-130 | the first `count` slices are the slices in order |
| LegacyTulp.ChunkStep | tulp/tulp.py:118-131 | one line never empties the chunk list, and with a non-positive `max_chars` nothing is ever added |
| LegacyTulp.Chunks | tulp/tulp.py:114-131 | the chunk list is never empty |
| LegacyTulp.AppendSlices | tulp/tulp.py:128-130 | the slicing loop appends `len / max_chars + 1` slices, the last possibly empty |
| LegacyTulp.PreProcessRawInput | tulp/tulp.py:89-136 | `pre_process_raw_input`: the for loop computes the chunking function |
| LegacyTulp.CopyChunks | tulp/tulp.py:133-136 | the closing loop copies the chunks unchanged |
| LegacyTulp.SlicesPrefix | tulp/tulp.py:128-130 | the first slices, put together, are the line up to the end of the last of them |
| LegacyTulp.SlicesWhole | tulp/tulp.py:128-130 | the `len / max_chars + 1` slices, put together, are the line |
| LegacyTulp.LastSlice | tulp/tulp.py:128-130 | the last slice holds the remainder, so it is empty when `max_chars` divides the length |
| LegacyTulp.ChunkStepBounded | tulp/tulp.py:118-131 | one line keeps every chunk within `max_chars` and a line feed |
| LegacyTulp.ChunksBounded | tulp/tulp.py:114-131 | every chunk holds at most `max_chars` characters and a line feed, the current one at most `max_chars` |
| LegacyTulp.ChunksShortLines | tulp/tulp.py:121-126 | lines shorter than `max_chars` are never cut nor dropped: the chunks put together are the lines, each followed by "\n" |
| LegacyTulp.ChunkStepDropsLongLine | tulp/tulp.py:123-124 | a line of at least `max_chars` characters that meets an empty current chunk is dropped |
| LegacyTulp.ChunksDropLongLines | tulp/tulp.py:114-124 | leading lines of at least `max_chars` characters are all lost |
| LegacyTulp.LongFirstLineIsLost | tulp/tulp.py:114-131 | with `max_chars` 3, the input "abcd" gives [""] |
| LegacyTulp.ChunkStepFixed | tulp/tulp.py:118-131 | the repaired step never empties the chunk list |
| LegacyTulp.ChunksFixed | tulp/tulp.py:114-131 | the repaired chunk list is never empty |
| LegacyTulp.ChunkStepFixedText | tulp/tulp.py:118-131 | each repaired step adds the line to the text: with a line feed after it, alone, or after a line feed |
| LegacyTulp.FixedStepFits | tulp/tulp.py:121-122 | a line that fits adds itself and a line feed |
| LegacyTulp.FixedStepSlicesLine | tulp/tulp.py:123-131 | a long line that meets an empty chunk is sliced in its place and adds itself |
| LegacyTulp.FixedStepOpensChunk | tulp/tulp.py:125-126 | a short line that does not fit opens a new chunk, adding itself and a line feed |
| LegacyTulp.FixedStepClosesChunk | tulp/tulp.py:127-131 | a long line after a non-empty chunk adds a line feed, then itself |
| LegacyTulp.UnlinedAdded | tulp/tulp.py:118-131 | line feeds aside, a repaired step adds exactly the line |
| LegacyTulp.ChunksFixedKeepText | tulp/tulp.py:114-131 | with the repair no character of the input is lost: the chunks put together, line feeds aside, are the lines put together |
| LegacyWriter.Opens | tulp/TulpOutputFileWriter.py:27-30 | `open(path, "w")` succeeds: the name is not empty and its directory exists; "", ".", ".." and the root always do |
| LegacyWriter.OpenError | tulp/TulpOutputFileWriter.py:31-32 | the error text of a failed open: "Not a directory" when a directory on the way is a file, "No such file or directory" otherwise, followed by the `repr` of the name |
| LegacyWriter.MessageExamples | tulp/TulpOutputFileWriter.py:31-32 | the name x/it's.txt is quoted with double quotes in the message, the name f/out.txt with single quotes |
| Text.QuoteFor | tulp/TulpOutputFileWriter.py:32 | `repr` quotes with a double quote exactly when the string holds a single quote and no double quote |
| Text.EscapeChar | tulp/TulpOutputFileWriter.py:32 | a character is written as itself exactly when it is not the backslash, the chosen quote or a control character; an escape is at most four characters |
| Text.PyRepr | tulp/TulpOutputFileWriter.py:32 | `repr` of a string: it starts and ends with the chosen quote and is at least two characters longer |
| Text.UnescapeEscaped | tulp/TulpOutputFileWriter.py:32 | the escapes read back as the characters they stand for |
| Text.ReprRoundTrip | tulp/TulpOutputFileWriter.py:32 | the text between `repr`'s quotes reads back as the string, so no character is lost |
| Text.ReprPlain | tulp/TulpOutputFileWriter.py:32 | a string with no quote, backslash or control character is written between single quotes as it is |
| Text.ReprApostrophe | tulp/TulpOutputFileWriter.py:32 | x/it's.txt is written between double quotes, its single quote unescaped |
| LegacyWriter.LegacyWriteEffect | tulp/TulpOutputFileWriter.py:17-32 | `write_to_file`: an existing target is renamed to its first free backup name, then the target is written or the open error is returned |
| LegacyWriter.LegacyBackupName | tulp/TulpOutputFileWriter.py:18-23 | the counter loop starts at 1 and stops at the first free `{root}.backup-{n}{ext}` name, and it ends |
| LegacyWriter.LegacyWriteToFile | tulp/TulpOutputFileWriter.py:9-32 | an existing target is first renamed to its first free backup name; then the target is written, or the error of `open` is returned |
| LegacyWriter.LegacyNewTarget | tulp/TulpOutputFileWriter.py:17-32 | a target that does not exist is written directly: nothing is renamed and no other path changes; a failed open changes nothing and reports "Not a directory" exactly when a directory on the way is a file, "No such file or directory" otherwise |
| LegacyWriter.LegacyExistingTarget | tulp/TulpOutputFileWriter.py:21-30 | an existing target moves to a free backup name, so no earlier backup is overwritten; the new content lands at the target; every other path is unchanged |
| LegacyWriter.BackupIsFresh | tulp/TulpOutputFileWriter.py:23 | the backup name is never the target itself |

## Left out

- The model SDK calls in every `generate`, all of tulp/llms/LlmOpenAI.py and tulp/llms/LlmGroq.py, and Gemini's temperature back-off loop (floating point). The client is a function of the history it is sent.
- Provider discovery in tulp/llms/__init__.py. The client is a parameter.
- `execute_python_code` and tulp/executePython.py (a subprocess). It is a function from the program and its stdin to the captured stdout, stderr and exit status.
- The command line, the configuration and the logger. Log calls do nothing observable. `config.continuation_retries`, `config.max_chars` and `config.write_file` are parameters.
- The request serializer (`inspect_manager`) and the prompt templates. The prompt factory is a function parameter.
- `read_stdin`, and the byte writes of `print_stdout` and `print_stderr`. Only the text they emit is modelled.
- The warning about large inputs, and every other log text.
- The legacy orchestration (`processRequest`, `processExecutionRequest` and `run` in tulp/tulp.py) and tulip.py.
- `str.strip` and `\s` use only the ASCII whitespace of `str.isspace`: space, tab, line feed, carriage return, vertical tab, form feed, and U+001C to U+001F. Non-ASCII whitespace such as U+0085 and U+00A0 is not modelled. `splitlines` splits on the line feed only. `\w`, `[a-zA-Z]` and `\s` are ASCII character predicates.
- Files.AbsPath: the working directory is a field of the filesystem and is taken as given. `os.getcwd` always returns an absolute path; only for one is the result proved absolute and normal. Symbolic links are not resolved, in Python's `abspath` either.
- Files.NormPathIdempotent: proved for absolute paths only. Those are the paths `AbsPath` gives with an absolute working directory.
- Files.FileSystem.Rename: a directory is moved as one entry; its children are not modelled.
- OutputHandler.WriteToFile: the text of an `OSError` is not modelled; only the message's fixed start is. An exception during the write itself is not modelled.
- LegacyWriter.LegacyWriteToFile: `open` fails only when the parent directory is not an existing directory: with the `NotADirectoryError` message when a directory on the way is a file, and with the `FileNotFoundError` message otherwise. Permission errors and a target path ending in a separator are not modelled. Paths are not normalised: the filesystem is a map keyed by the path as spelled, so "./f" and "f" are different entries. Only a parent spelled "", ".", ".." or all separators is taken to exist without an entry.
- Text.PyRepr: non-ASCII characters are written as themselves. Python's `repr` escapes the non-printable ones as `\x`, `\u` or `\U`.
- Core.ProcessChunk: exceptions are one outcome, `Raised`; their text is only logged by the source.
- Core.ChunkVerdict: an exception raised after the continuation loop (while printing or reading blocks) is not modelled; only `generate` raises.
- Core.Deliver: an exception while printing is not modelled.
- Executor.RunAttempt: an exception from the runner or from the file write is not modelled; only `generate` raises.
- InputHandler.ChunkStdin requires `max_chars > 0`. For other limits, the source's for loop is modelled as written by InputHandler.ChunksAsWritten. With such a limit, a non-empty line that meets a non-empty current chunk enters the slicing loop, whose `start_index` never grows, so the run never returns. With `max_chars` 0 that happens exactly when two neighbouring lines are both non-empty. With a negative `max_chars` it happens exactly when the input has two non-empty lines. Other inputs return; see "## Findings".
- LegacyTulp.ParseResponse: `sys.exit(2)` is modelled as the result `Exit(2)`.
- LegacyTulp.ChunksBounded states `max_chars + 1` as the bound, not `max_chars`: a chunk filled up to `max_chars` gets one more character, a line feed, when a long line closes it.

## Findings

| source | as written | input that shows it | evidently intended | confidence | as-written member | corrected member |
|---|---|---|---|---|---|---|
| tulp/tulp.py:123-131 | a line of at least `max_chars` characters that meets an empty current chunk (always the case for the first line) falls through both branches and is dropped | `max_chars` = 3, input "abcd": the result is [""] and the line is lost | the line is sliced like any other over-long line, so that no input character is lost | not executed | LegacyTulp.LongFirstLineIsLost | LegacyTulp.ChunksFixedKeepText |
| tulp/input_handler.py:78-86 | `max_chars` is used as read from the configuration; with `max_chars <= 0` the slicing loop's `start_index` never grows, so a non-empty line that meets a non-empty current chunk loops forever | `max_chars` = 0, lines "a" then "b": the second line enters the slicing loop and `chunk_stdin` never returns | the limit is positive, so every slicing turn advances and `chunk_stdin` always returns | not executed | InputHandler.ZeroLimitExamples | InputHandler.ChunkStdin |
