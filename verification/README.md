# ssync — a Dafny model of the slide-selection run

`ssync.py` prepares the slide folders for a live presentation in OBS. It
mirrors a remote slide repository with `rclone`, removes the files, links and
directories in the OBS slides directory (other kinds of entries stay), and then
runs an interactive loop. Each round asks the operator whether to exit. Unless
the answer is `y` or `Y`, it lets the operator pick one name from the mirror's
listing with `fzf`, and copies that entry to
`<slides_dir>/<target_subdir> <n>`, where `n` counts the rounds from 1.

This project models that program as pure functions over immutable data:

- `Failures`: the fatal errors (`error_msg` ends the process with status 1)
  and a `Result` type carrying them.
- `Text`: the Python string operations the program uses: `s[:-1]`,
  `str.strip()` with Python's whitespace set, and ASCII `str.lower()`.
- `Decimal`: `str(n)` for a natural number, with a parser that reads it
  back.
- `Listing`: the newline-joined candidate list given to the picker, and
  Python's `split("\n")`, which reads the list back into names.
- `Config`: loading the four required settings from the parsed INI file.
  That file is given as a map from (section, key) to value.
- `OutputDir`: clearing the output directory. It is given as the listing
  `os.listdir` returns, each entry tagged with its kind.
- `Session`: the selection loop. It is a fold over a finite sequence of
  operator events (exit answer, picker output). The fold yields the closing
  index and one step per round that did not exit. Each step is either a
  logged skip or one `copytree` action. `Populate` carries those copies out on
  the set of entry names.
- `Ssync`: one whole run in the order load → sync → clear → select. It records
  the phases that ran and how the run ended.

## Model

| member | source | states |
|---|---|---|
| Config.Load | ssync.py:24-34 | Loading succeeds exactly when `RCLONE/remote_dir`, `RCLONE/local_dir`, `OBS/slides_dir` and `OBS/target_subdir` are all present. Each setting is then the value the parsed file holds for it. Any missing key is the single fatal configuration error. |
| Config.LoadReadsOnlyRequiredKeys | ssync.py:27-31 | Two configurations that agree on the four required keys load identically. No other section or key affects the outcome. |
| OutputDir.PathJoin | ssync.py:47 | `os.path.join(dir, name)` ends with the name. An absolute name replaces the directory. A relative name follows the directory directly when the directory is empty or ends in `/`, and otherwise after one added `/`. |
| OutputDir.FirstFailure | ssync.py:46-54 | Gives the position of the first listed entry whose removal raises, or the listing's length. Every entry before it is removed without error. |
| OutputDir.Clear | ssync.py:44-54 | Clearing succeeds exactly when no `unlink`/`rmtree` raises. Afterwards exactly the entries that are neither file, link nor directory remain. A failure is fatal and names the joined path of the first failing entry in listing order. |
| OutputDir.ClearEmpties | ssync.py:46-52 | An output directory holding only files, links and directories is empty after a successful clear. |
| Text.DropLast | ssync.py:61 | `s[:-1]` is a prefix of `s` one character shorter, and the empty string stays empty. |
| Text.Strip | ssync.py:75 | `strip()` leaves no Python whitespace at either end and never lengthens the string. |
| Text.LeadingRun | ssync.py:75 | `strip()` skips a run of whitespace at the front, then strips the trailing whitespace of the rest. |
| Text.StripSplits | ssync.py:75 | The input is a whitespace run, then the stripped result, then another whitespace run. |
| Text.StripIdempotent | ssync.py:75 | Stripping twice is stripping once. |
| Decimal.Render | ssync.py:91 | `str(index)` is a non-empty string of decimal digits with no leading zero, except for zero itself. A one-digit number is its own digit, so zero renders as `"0"`. |
| Decimal.ParseRender | ssync.py:91 | Reading the decimal rendering back gives the original number. |
| Decimal.RenderInjective | ssync.py:86-92 | Different indices have different decimal renderings. |
| Listing.CandidateList | ssync.py:58-61 | An empty listing gives `""`. Otherwise the list with one newline put back is every name followed by a newline, in listing order: only the newline after the last name is dropped. |
| Listing.CandidateListShape | ssync.py:58-61 | An empty mirror gives `""` and a single entry gives its own name. Otherwise the list is the first name, a newline, then the list of the rest. |
| Listing.SplitCandidateList | ssync.py:58-61 | For a non-empty listing without newlines in names, splitting the candidate list at newlines recovers the listing exactly. |
| Session.IsExitAnswer | ssync.py:67-71 | An answer ends the session exactly when it lower-cases to `"y"`, which means it is `"y"` or `"Y"`. The empty answer and `"yes"` continue the loop. |
| Session.SlotNameParts | ssync.py:86-92 | The output folder of index `i` is the target prefix, one space, then digits that read back as `i`. |
| Session.SourceParts | ssync.py:85 | The copy source is the mirror directory, one `/` (added even after a trailing `/`), then the choice unchanged. |
| Session.DestinationParts | ssync.py:86-92 | The copy destination is the slides directory, one `/`, then the slot name of the round's index. |
| Session.Normalise | ssync.py:74-75 | Empty picker output gives an empty choice. A choice has no whitespace at either end and is shorter than the non-empty output it came from. |
| Session.NormalisePickerLine | ssync.py:72-75 | The picker writes a line and a newline, and the choice is that line exactly when the line has no surrounding whitespace. A folder name with such whitespace comes back altered. |
| Session.NormaliseSplits | ssync.py:75 | The choice is what remains of the output without its last character once whitespace runs are cut from both ends. |
| Session.StepAt | ssync.py:77-93 | Given the normalised choice of a round that did not exit: an empty choice is a skip. Any other choice is exactly one copy, from `<local_dir>/<choice>` to `<slides_dir>/<target_subdir> <index>`. Either way the round keeps its index and the candidate list it showed. |
| Session.Run | ssync.py:64-93 | Round `j` has index `start + j`, whether it copied or skipped. The loop stops at the first exit answer and at no other. The closing index is `start` plus the rounds completed. Every round shows the same candidate list. |
| Session.FirstExit | ssync.py:64-71 | The number of completed rounds is the position of the first exit answer, or the number of answers when none exits. No earlier answer exits. |
| Session.RunRound | ssync.py:72-93 | Round `j` of the loop is a skip exactly when its normalised picker output is empty. Otherwise it copies that choice from the mirror into the folder named after index `start + j`. |
| Session.Session | ssync.py:56-66 | The session's rounds are numbered from 1 and all show the candidate list built once before the loop. The closing index is one more than the rounds completed. An immediate exit answer copies nothing. |
| Session.SessionSteps | ssync.py:56-93 | Each completed round, spelled out: it did not answer exit, its index is its position plus 1, it showed the one candidate list, and it is a skip exactly when the choice is empty. Otherwise it is the one copy into the folder of its index. |
| Session.SessionClosesOnFirstExit | ssync.py:64-71 | The session closes exactly when some answer is an exit answer. It then closes at index `k + 1`, where `k` is the position of the first exit answer. |
| Session.Copies | ssync.py:77-93 | The copies of the rounds from a given position on are the copy actions of the copying rounds, one per copying round, in round order. That is the order of the `copytree` calls. |
| Session.CopyRounds | ssync.py:77-93 | Lists positions of copying rounds at or after a given position, each one in range. |
| Session.CopyRoundsIncreasing | ssync.py:64-93 | The copying rounds are listed strictly in increasing round order. |
| Session.CopyRoundsComplete | ssync.py:77-93 | Every round at or after that position that copied is listed. |
| Session.SlotNameInjective | ssync.py:86-92 | Distinct indices name distinct output folders `<target_subdir> <index>`. |
| Session.DestinationInjective | ssync.py:86-92 | Distinct indices give distinct copy destinations. |
| Session.NumberedCopiesDistinct | ssync.py:64-93 | Rounds numbered consecutively, each copying to its own index's folder, never repeat a destination. |
| Session.CopyDestinationsDistinct | ssync.py:64-93 | Within one session the copy destinations are pairwise distinct. |
| Session.Populate | ssync.py:93 | The copies are carried out in round order. They all succeed exactly when no copy meets an existing name, whether the directory held it before or an earlier round created it. Otherwise the first such copy fails and names its own destination, as `copytree` refuses an existing destination. On success every existing entry is kept, each copy's folder name is added, and nothing else. |
| Session.FirstClash | ssync.py:77-93 | Gives the position of the first copy onto an existing name, or the number of rounds. No earlier round clashes. |
| Session.ClashesShift | ssync.py:77-93 | After the first round, a later round clashes against the entries the first round left exactly when it clashed against the original entries. |
| Session.PopulateFailsOnExisting | ssync.py:93 | A copy onto a name the directory already held makes the copies fail. |
| Session.PopulateFresh | ssync.py:93 | If the directory holds no slot name from the first index on, every copy of consecutively numbered rounds lands on a fresh name. |
| Ssync.Execute | ssync.py:98-106 | Phases run in the order sync, clear, select. A missing configuration key is fatal before any phase runs. Once the configuration loads, selection runs exactly when clearing succeeds. A failed clear ends the run with the error `Clear` reports. The cleared phase records the entries `Clear` kept, and the selection phase is the session over the mirror and the events. After it, the output is the result of carrying out the session's copies on the kept entries, or that step's fatal error. The run is completed when the operator exited, and pending when the inputs ran out. |
| Ssync.CopyTargetsFresh | ssync.py:44-54 | When the output directory holds only files, links and directories, no copy of the run finds its destination taken. |
| Ssync.OutputIsKeptPlusCopies | ssync.py:93-101 | After a run that got through the session, the output directory holds the entries clearing kept plus one folder per copy of the session, and nothing else. |

## Left out

- The `rclone sync` and `echo ... | fzf` shell commands are foreign processes. The sync's effect is the mirror listing given as input. The picker is an abstract event carrying its raw output. Shell quoting is not modelled: a folder name holding `'` breaks the `echo` command.
- Terminal input and output (`input`, `print`, colours, the log lines) are not modelled. The operator's answers arrive as events.
- The loop is unbounded in the program. The model consumes a finite sequence of events and reports `Pending` when they run out before an exit answer.
- The temporary file `.chosen-tempfile` is not modelled: its writing, reading and final removal. The event carries what `read()` returns from it. Text-mode reading turns `"\r\n"` and a lone `"\r"` into `"\n"` before `[:-1]`, and that newline translation is not modelled.
- The mirror directory and the output directory are assumed disjoint. The mirror is listed after the clear, so a `local_dir` equal to or inside `slides_dir` would be emptied or removed before it is listed. The model cannot express that case.
- `ConfigParser` file reading is not modelled: the `DEFAULT` section fallback and the lower-casing of option names. The configuration is the map that parsing produces.
- Config.Load: `ConfigParser` interpolates `%(name)s` references when a value is read, and a value with a stray `%` raises `InterpolationSyntaxError`, which is not a `KeyError` and so ends the program outside the fatal configuration message. The model takes each value as already interpolated and has no such error: it succeeds whenever the four keys are present.
- Real file-system effects are not modelled: `os.listdir`, `unlink`, `rmtree`, `copytree` and their errors on the source side. Failing removals are an input set of names. Directories are sets of entry names. A `target_subdir` holding `/` is not told apart from a plain name.
- Session.Populate: the copies are applied after the session rather than inside each round. When a destination exists, the program stops at that round with an uncaught `copytree` error. The model reports the same error and the same destination, but its session record still lists the rounds the program would never reach.
- Text.Lower: only `A`..`Z` are mapped, not Python's full Unicode case mapping. `Session.IsExitAnswer` is exact regardless, because only `y` and `Y` lower-case to `"y"` and `lower()` never shortens a string.
